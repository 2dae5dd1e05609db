/** Why a scene is refused: whatever error the compiler gives, something in the request deserves it. */
module SceneRefusals {
  import opened Common
  import opened RigidTransforms
  import opened SceneTypes
  import opened SceneCompiler
  import opened SceneMeaning
  import Text

  function CenterOf(scope: Scope, gripperCenter: Vec3, angularOrigin: Vec3): Vec3 {
    match scope
    case Gripper => gripperCenter
    case ArmBase => ZERO
    case HandAngular => angularOrigin
  }

  /** What is wrong with one object. */
  ghost predicate IsFaulty(e: SceneError, v: ObjectInput, gripperCenter: Vec3, angularOrigin: Vec3) {
    match e
    case MissingObjectId => Text.IsPythonBlank(v.objectId)
    case UnsupportedType => forall kind :: !MeansKind(v.requestedType, kind)
    case MissingDescription => MeansKind(v.requestedType, KeepOut) && Text.IsPythonBlank(v.description)
    case UnsupportedScope => v.requestedScope != "" && forall scope :: !FallsInScope(v, scope, gripperCenter)
    case BadRadius => v.radius <= 0.0
    case OutsideRois => forall scope :: FallsInScope(v, scope, gripperCenter) ==>
        Dist2(v.center, CenterOf(scope, gripperCenter, angularOrigin)) > Squared(RegionOf(scope).0)
    case _ => false
  }

  /** Two of the objects supplied, neither of them the robot, have one identifier. */
  ghost predicate HaveOneId(r: SceneRequest) {
    exists i, j, o, p ::
      && 0 <= i < j < |r.objects| && IsTaken(o, r, i) && IsTaken(p, r, j) && o.sphere.sphereId == p.sphere.sphereId
  }

  ghost predicate IsTaken(o: SemanticObject, r: SceneRequest, i: nat) {
    && i < |r.objects| && IsObjectOf(o, r.objects[i], r.gripperCenter, AngularOrigin(r))
    && !IsRobot(o, r.selfSpheres, r.margin)
  }

  ghost predicate HasPoints(r: SceneRequest) {
    exists p :: p in r.points && Dist2(p, ZERO) <= Squared(1.2)
  }

  /** The request deserves the error. */
  ghost predicate IsDue(e: SceneError, r: SceneRequest) {
    match e
    case SelfFilterRequired => HasPoints(r) && (Text.IsPythonBlank(r.selfFilterRevision) || r.selfSpheres == [])
    case BadSelfSphere => HasPoints(r) && exists s :: s in r.selfSpheres && s.radius <= 0.0
    case BadProjection => r.projection.Some? && !r.projection.value.valid
    case BadAabb => exists v :: v in r.aabbs && v.kind == "WORK_OBJECT" && !IsSeenBox(v)
    case DuplicateSphereId => HaveOneId(r)
    case TooManyObjects => |r.objects| > r.maximumSpheres
    case NoRoom => r.publishUnclaimed && (exists p :: IsVisible(p, r)) && r.maximumSpheres <= |r.objects| + 1
    case _ => exists v :: v in r.objects && IsFaulty(e, v, r.gripperCenter, AngularOrigin(r))
  }

  lemma StripIsBlankIff(s: string)
    ensures Text.Strip(s) == "" <==> Text.IsPythonBlank(s)
  {
    hide *;
    Text.PythonBlankIff(s);
  }

  lemma HasPointsIff(r: SceneRequest)
    ensures InBase(r.points) != [] ==> HasPoints(r)
  {
    hide Dist2, Squared, InBase;
    if InBase(r.points) != [] {
      var p := InBase(r.points)[0];
      InBaseAre(r.points, p);
      assert multiset(InBase(r.points))[p] > 0;
      assert p in r.points;
    }
  }

  // ----- the objects

  lemma ScopesAre(v: ObjectInput, gripperCenter: Vec3)
    ensures match ChooseScope(v, gripperCenter)
      case Ok(scope) => FallsInScope(v, scope, gripperCenter)
      case Err(UnsupportedScope) => v.requestedScope != "" && forall scope :: !FallsInScope(v, scope, gripperCenter)
      case Err(e) =>
        && e == OutsideRois && v.requestedScope == "" && Dist2(v.center, ZERO) > Squared(1.2)
        && FallsInScope(v, ArmBase, gripperCenter) && !FallsInScope(v, Gripper, gripperCenter)
        && !FallsInScope(v, HandAngular, gripperCenter)
  {
    hide Dist2, Squared;
  }

  lemma OneScope(v: ObjectInput, s: Scope, t: Scope, gripperCenter: Vec3)
    requires FallsInScope(v, s, gripperCenter) && FallsInScope(v, t, gripperCenter)
    ensures s == t
  {
    hide Dist2, Squared;
  }

  lemma FaultIs(v: ObjectInput, gripperCenter: Vec3, angularOrigin: Vec3)
    requires NormalizeObject(v, gripperCenter, angularOrigin).Err?
    ensures IsFaulty(NormalizeObject(v, gripperCenter, angularOrigin).error, v, gripperCenter, angularOrigin)
  {
    StripIsBlankIff(v.objectId);
    StripIsBlankIff(v.description);
    ScopesAre(v, gripperCenter);
    forall kind
      ensures KindOf(v.requestedType) == Some(kind) <==> MeansKind(v.requestedType, kind)
    {
      KindIff(v.requestedType, kind);
    }
    forall s, t | FallsInScope(v, s, gripperCenter) && FallsInScope(v, t, gripperCenter)
      ensures s == t
    {
      OneScope(v, s, t, gripperCenter);
    }
    hide Text.Strip, Text.IsPythonBlank, KindOf, MeansKind, ChooseScope, FallsInScope, Dist2, Squared;
  }

  lemma {:induction false} OneIsFaulty(values: seq<ObjectInput>, gripperCenter: Vec3, angularOrigin: Vec3)
    requires NormalizeAll(values, gripperCenter, angularOrigin).Err?
    ensures exists v ::
        v in values
        && IsFaulty(NormalizeAll(values, gripperCenter, angularOrigin).error, v, gripperCenter, angularOrigin)
  {
    hide NormalizeObject, IsFaulty;
    var n := |values| - 1;
    if NormalizeAll(values[..n], gripperCenter, angularOrigin).Err? {
      OneIsFaulty(values[..n], gripperCenter, angularOrigin);
    } else {
      FaultIs(values[n], gripperCenter, angularOrigin);
      assert values[n] in values;
    }
  }

  // ----- the objects together

  lemma {:induction false} RetainedAt(objects: seq<SemanticObject>, robot: seq<SelfSphere>, margin: real, i: nat)
    returns (a: nat)
    requires i < |Retained(objects, robot, margin)| && IsGrown(robot, margin)
    requires forall x :: x in objects ==> x.radius > 0.0
    ensures i <= a < |objects| && objects[a] == Retained(objects, robot, margin)[i]
    ensures !IsRobot(objects[a], robot, margin)
  {
    hide IsRobot, OverlapsSelf, IsGrown;
    var n := |objects| - 1;
    var earlier := Retained(objects[..n], robot, margin);
    if i < |earlier| {
      a := RetainedAt(objects[..n], robot, margin, i);
    } else {
      a := n;
      RetainedIsFewer(objects[..n], robot, margin);
      OverlapIff(objects[n], robot, margin);
    }
  }

  lemma {:induction false} RetainedIsFewer(objects: seq<SemanticObject>, robot: seq<SelfSphere>, margin: real)
    ensures |Retained(objects, robot, margin)| <= |objects|
  {
    hide OverlapsSelf;
    if objects != [] {
      RetainedIsFewer(objects[..|objects| - 1], robot, margin);
    }
  }

  lemma {:induction false} RetainedInOrder(objects: seq<SemanticObject>, robot: seq<SelfSphere>, margin: real, i: nat,
                                           j: nat)
    returns (a: nat, b: nat)
    requires i < j < |Retained(objects, robot, margin)| && IsGrown(robot, margin)
    requires forall x :: x in objects ==> x.radius > 0.0
    ensures a < b < |objects|
    ensures objects[a] == Retained(objects, robot, margin)[i] && !IsRobot(objects[a], robot, margin)
    ensures objects[b] == Retained(objects, robot, margin)[j] && !IsRobot(objects[b], robot, margin)
  {
    hide IsRobot, OverlapsSelf, IsGrown;
    var n := |objects| - 1;
    var earlier := Retained(objects[..n], robot, margin);
    if j < |earlier| {
      a, b := RetainedInOrder(objects[..n], robot, margin, i, j);
    } else {
      a := RetainedAt(objects[..n], robot, margin, i);
      b := n;
      OverlapIff(objects[n], robot, margin);
    }
  }

  /** What the compiler makes of the objects before it looks at their number and identifiers. */
  function Taken(r: SceneRequest): seq<SemanticObject>
    requires NormalizeAll(r.objects, r.gripperCenter, AngularOrigin(r)).Ok?
  {
    Retained(NormalizeAll(r.objects, r.gripperCenter, AngularOrigin(r)).value, r.selfSpheres, r.margin)
  }

  lemma DuplicateMeans(r: SceneRequest) returns (i: nat, j: nat)
    requires IsRefusedFor(DuplicateSphereId, r)
    ensures NormalizeAll(r.objects, r.gripperCenter, AngularOrigin(r)).Ok?
    ensures i < j < |Taken(r)| && Taken(r)[i].sphere.sphereId == Taken(r)[j].sphere.sphereId
  {
    hide NormalizeAll, Retained, AngularOrigin;
    var objects := Taken(r);
    i, j :| 0 <= i < j < |objects| && objects[i].sphere.sphereId == objects[j].sphere.sphereId;
  }

  lemma TakenIs(r: SceneRequest)
    requires NormalizeAll(r.objects, r.gripperCenter, AngularOrigin(r)).Ok?
    ensures Taken(r) ==
            Retained(NormalizeAll(r.objects, r.gripperCenter, AngularOrigin(r)).value, r.selfSpheres, r.margin)
    ensures |Taken(r)| <= |r.objects|
  {
    hide NormalizeAll, Retained, AngularOrigin, IsObjectOf;
    AllNormalizedAre(r.objects, r.gripperCenter, AngularOrigin(r));
    RetainedIsFewer(NormalizeAll(r.objects, r.gripperCenter, AngularOrigin(r)).value, r.selfSpheres, r.margin);
  }

  lemma DuplicateIsDue(r: SceneRequest)
    requires IsRefusedFor(DuplicateSphereId, r) && IsGrown(r.selfSpheres, r.margin)
    ensures IsDue(DuplicateSphereId, r)
  {
    hide *;
    var i, j := DuplicateMeans(r);
    var origin := AngularOrigin(r);
    var all := NormalizeAll(r.objects, r.gripperCenter, origin).value;
    AllNormalizedAre(r.objects, r.gripperCenter, origin);
    TakenInHaveRadius(r.objects, r.gripperCenter, origin);
    TakenIs(r);
    var a, b := RetainedInOrder(all, r.selfSpheres, r.margin, i, j);
    TwoAreTaken(r, a, b, all[a], all[b]);
  }

  lemma TwoAreTaken(r: SceneRequest, a: nat, b: nat, o: SemanticObject, p: SemanticObject)
    requires a < b < |r.objects| && o.sphere.sphereId == p.sphere.sphereId
    requires IsObjectOf(o, r.objects[a], r.gripperCenter, AngularOrigin(r)) && !IsRobot(o, r.selfSpheres, r.margin)
    requires IsObjectOf(p, r.objects[b], r.gripperCenter, AngularOrigin(r)) && !IsRobot(p, r.selfSpheres, r.margin)
    ensures IsDue(DuplicateSphereId, r)
  {
    hide IsObjectOf, IsRobot, AngularOrigin;
    assert IsTaken(o, r, a) && IsTaken(p, r, b);
  }

  // ----- the room

  lemma RoomIsShort(r: SceneRequest, points: seq<Vec3>, available: nat)
    requires LayersFail(r, points, available)
    ensures points != [] && available <= 1 && r.publishUnclaimed
  {
    hide IsVoxelLayerAt;
  }

  lemma RemainingIsVisible(r: SceneRequest, objects: seq<SemanticObject>)
    requires IsGrown(r.selfSpheres, r.margin) && RemainingPoints(r, objects) != []
    ensures exists p :: IsVisible(p, r)
  {
    var p := RemainingPoints(r, objects)[0];
    RemainingPointsAre(r, objects, p);
    hide RemainingPoints, KeepsClear, AllInside, Dist2, Squared;
    assert multiset(RemainingPoints(r, objects))[p] > 0;
    assert p in r.points;
    assert IsVisible(p, r);
  }

  lemma NoRoomMeans(r: SceneRequest)
    requires IsRefusedFor(NoRoom, r)
    ensures NormalizeAll(r.objects, r.gripperCenter, AngularOrigin(r)).Ok? && |Taken(r)| <= r.maximumSpheres
    ensures LayersFail(r, RemainingPoints(r, Taken(r)), r.maximumSpheres - |Taken(r)|)
  {
    hide NormalizeAll, Retained, AngularOrigin, LayersFail, RemainingPoints;
  }

  lemma NoRoomIsDue(r: SceneRequest)
    requires IsRefusedFor(NoRoom, r) && IsGrown(r.selfSpheres, r.margin)
    ensures IsDue(NoRoom, r)
  {
    hide *;
    NoRoomMeans(r);
    TakenIs(r);
    RoomIsShort(r, RemainingPoints(r, Taken(r)), r.maximumSpheres - |Taken(r)|);
    RemainingIsVisible(r, Taken(r));
    NoRoomShape(r);
  }

  lemma NoRoomShape(r: SceneRequest)
    requires r.publishUnclaimed && (exists p :: IsVisible(p, r)) && r.maximumSpheres <= |r.objects| + 1
    ensures IsDue(NoRoom, r)
  {
    hide IsVisible;
  }

  lemma TooManyIsDue(r: SceneRequest)
    requires IsRefusedFor(TooManyObjects, r)
    ensures IsDue(TooManyObjects, r)
  {
    hide NormalizeAll, Retained, AngularOrigin;
    TakenIs(r);
  }

  lemma BoxIsDue(r: SceneRequest)
    requires IsRefusedFor(BadAabb, r)
    ensures IsDue(BadAabb, r)
  {
    CollectedAre(r.aabbs, |r.aabbs|);
    hide CollectAabbs, ArePublished, IsSeenBox;
    assert r.aabbs[..|r.aabbs|] == r.aabbs;
    var i :| 0 <= i < |r.aabbs| && r.aabbs[i].kind == "WORK_OBJECT" && !IsSeenBox(r.aabbs[i]);
    assert r.aabbs[i] in r.aabbs;
  }

  lemma FilterIsDue(r: SceneRequest, e: SceneError)
    requires IsRefusedFor(e, r) && (e == SelfFilterRequired || e == BadSelfSphere || e == BadProjection)
    ensures IsDue(e, r)
  {
    HasPointsIff(r);
    StripIsBlankIff(r.selfFilterRevision);
    hide InBase, HasPoints, Text.Strip, Text.IsPythonBlank;
  }

  lemma ObjectIsDue(r: SceneRequest, e: SceneError)
    requires IsRefusedFor(e, r) && IsObjectError(e)
    ensures IsDue(e, r)
  {
    OneIsFaulty(r.objects, r.gripperCenter, AngularOrigin(r));
    hide NormalizeAll, IsFaulty;
  }

  /** No request is refused without cause. */
  lemma RefusalIsDue(r: SceneRequest, e: SceneError)
    requires IsRefusedFor(e, r) && IsGrown(r.selfSpheres, r.margin)
    ensures IsDue(e, r)
  {
    hide IsRefusedFor, IsDue, IsGrown;
    match e
    case SelfFilterRequired | BadSelfSphere | BadProjection => FilterIsDue(r, e);
    case BadAabb => BoxIsDue(r);
    case DuplicateSphereId => DuplicateIsDue(r);
    case TooManyObjects => TooManyIsDue(r);
    case NoRoom => NoRoomIsDue(r);
    case _ => ObjectIsDue(r, e);
  }
}
