/** The scene compiler: self filter, semantic objects, visible-surface boxes and voxel layers become one scene. */
module SceneCompiler {
  import opened Common
  import opened RigidTransforms
  import opened SceneTypes
  import opened Voxel
  import V = SceneValidator
  import Text

  datatype SelfSphere = SelfSphere(center: Vec3, radius: real)

  /** A semantic object as supplied.  The type, the scope and the source are stripped and upper-cased; the sphere
      identifier is empty when none is supplied. */
  datatype ObjectInput = ObjectInput(
    objectId: string,
    requestedType: string, description: string,
    center: Vec3, requestedScope: string,
    radius: real, sphereId: string,
    source: string)

  datatype SemanticObject = SemanticObject(sphere: Sphere, radius: real, description: string, source: string)

  /** A visible-surface box as supplied; the kind is stripped and upper-cased. */
  datatype AabbInput = AabbInput(
    extentKind: string,
    objectId: string, kind: string,
    frameId: string, description: Option<string>,
    observedAtUs: int, freshnessMs: int,
    expiresAtUs: int, minimum: Vec3,
    maximum: Vec3)

  /** The hand's angular projection, with the verdict of its own checks. */
  datatype Projection = Projection(valid: bool, origin: Vec3)

  datatype SceneRequest = SceneRequest(
    points: seq<Vec3>,
    gripperCenter: Vec3, selfSpheres: seq<SelfSphere>,
    selfFilterRevision: string, objects: seq<ObjectInput>,
    aabbs: seq<AabbInput>, projection: Option<Projection>,
    maximumSpheres: int, margin: real,
    publishUnclaimed: bool, sceneRevision: string,
    contentToken: string, largestFloat: Length)

  datatype SceneError =
    | MissingObjectId
    | UnsupportedType
    | MissingDescription
    | UnsupportedScope
    | OutsideRois
    | BadRadius
    | SelfFilterRequired
    | BadSelfSphere
    | BadProjection
    | BadAabb
    | DuplicateSphereId
    | TooManyObjects
    | NoRoom

  datatype Built = Built(
    revision: string,
    gripperCenter: Vec3, angularOrigin: Vec3,
    objects: seq<SemanticObject>, gripperSpheres: seq<Sphere>,
    baseSpheres: seq<Sphere>, aabbs: seq<V.Aabb>)

  // ----- points

  /** The distance of the two exceeds `r`. */
  predicate IsBeyond(a: Vec3, b: Vec3, r: real) {
    r < 0.0 || Dist2(a, b) > Squared(r)
  }

  function InBase(points: seq<Vec3>): (r: seq<Vec3>)
    ensures forall p :: p in r ==> p in points && Dist2(p, ZERO) <= Squared(1.2)
  {
    if points == [] then []
    else
      var n := |points| - 1;
      InBase(points[..n]) + if Dist2(points[n], ZERO) <= Squared(1.2) then [points[n]] else []
  }

  predicate IsNear(p: Vec3, gripperCenter: Vec3) {
    Dist2(p, gripperCenter) <= Squared(0.5)
  }

  function OutputRadius(p: Vec3, gripperCenter: Vec3): real {
    if IsNear(p, gripperCenter) then 0.02 else 0.06
  }

  /** The sphere grown by the margin and by the radius the point will be published with. */
  predicate IsClearOf(p: Vec3, s: SelfSphere, margin: real, gripperCenter: Vec3) {
    IsBeyond(p, s.center, s.radius + margin + OutputRadius(p, gripperCenter))
  }

  predicate IsClear(p: Vec3, spheres: seq<SelfSphere>, margin: real, gripperCenter: Vec3) {
    forall s :: s in spheres ==> IsClearOf(p, s, margin, gripperCenter)
  }

  function ClearPoints(points: seq<Vec3>, spheres: seq<SelfSphere>, margin: real, gripperCenter: Vec3): (r: seq<Vec3>)
    ensures forall p :: p in r ==> p in points
  {
    if points == [] then []
    else
      var n := |points| - 1;
      ClearPoints(points[..n], spheres, margin, gripperCenter)
      + if IsClear(points[n], spheres, margin, gripperCenter) then [points[n]] else []
  }

  function Select(points: seq<Vec3>, keep: seq<bool>): seq<Vec3>
    requires |points| == |keep|
  {
    if points == [] then []
    else
      var n := |points| - 1;
      Select(points[..n], keep[..n]) + if keep[n] then [points[n]] else []
  }

  lemma {:induction false} SelectClear(points: seq<Vec3>, keep: seq<bool>, spheres: seq<SelfSphere>, margin: real,
                                       gripperCenter: Vec3)
    requires |points| == |keep|
    requires forall i :: 0 <= i < |points| ==> keep[i] == IsClear(points[i], spheres, margin, gripperCenter)
    ensures Select(points, keep) == ClearPoints(points, spheres, margin, gripperCenter)
  {
    hide IsClear;
    if points != [] {
      var n := |points| - 1;
      SelectClear(points[..n], keep[..n], spheres, margin, gripperCenter);
    }
  }

  /** `_apply_self_filter`: a keep mask narrowed sphere by sphere. */
  method ApplySelfFilter(points: seq<Vec3>, spheres: seq<SelfSphere>, margin: real, gripperCenter: Vec3)
    returns (result: Result<seq<Vec3>, SceneError>)
    ensures result == if points == [] then Ok([])
                      else if spheres == [] then Err(SelfFilterRequired)
                      else if exists s :: s in spheres && s.radius <= 0.0 then Err(BadSelfSphere)
                      else Ok(ClearPoints(points, spheres, margin, gripperCenter))
  {
    if points == [] {
      return Ok([]);
    }
    if spheres == [] {
      return Err(SelfFilterRequired);
    }
    hide IsClearOf, ClearPoints, Select;
    var keep := seq(|points|, i => true);
    for k := 0 to |spheres|
      invariant |keep| == |points|
      invariant forall j :: 0 <= j < k ==> spheres[j].radius > 0.0
      invariant forall i :: 0 <= i < |points| ==> keep[i] == IsClear(points[i], spheres[..k], margin, gripperCenter)
    {
      if spheres[k].radius <= 0.0 {
        return Err(BadSelfSphere);
      }
      assert spheres[..k + 1] == spheres[..k] + [spheres[k]];
      keep := seq(|points|, i requires 0 <= i < |points| && i < |keep| =>
                    keep[i] && IsClearOf(points[i], spheres[k], margin, gripperCenter));
    }
    assert spheres[..|spheres|] == spheres;
    SelectClear(points, keep, spheres, margin, gripperCenter);
    return Ok(Select(points, keep));
  }

  // ----- semantic objects

  /** `_TYPE_ALIASES` */
  function KindOf(requested: string): Option<Kind> {
    if requested in ["OBS", "OBSTACLE", "KEEP_OUT"] then Some(KeepOut)
    else if requested in ["", "PUSHABLE"] then Some(Pushable)
    else if requested in ["WORKPIECE", "WORK_PIECE", "WORK_OBJECT"] then Some(WorkObject)
    else None
  }

  function RoiCenter(scope: Scope, gripperCenter: Vec3, angularOrigin: Vec3): Vec3 {
    match scope
    case Gripper => gripperCenter
    case ArmBase => ZERO
    case HandAngular => angularOrigin
  }

  function ChooseScope(value: ObjectInput, gripperCenter: Vec3): Result<Scope, SceneError> {
    if value.requestedScope == ScopeText(HandAngular) then Ok(HandAngular)
    else if value.requestedScope == ScopeText(Gripper) then Ok(Gripper)
    else if value.requestedScope == ScopeText(ArmBase) then Ok(ArmBase)
    else if value.requestedScope != "" then Err(UnsupportedScope)
    else if IsNear(value.center, gripperCenter) then Ok(Gripper)
    else if Dist2(value.center, ZERO) <= Squared(1.2) then Ok(ArmBase)
    else Err(OutsideRois)
  }

  /** The supplied identifier as it is, or one made from the object's. */
  function SphereIdOf(value: ObjectInput): string {
    if value.sphereId != "" then value.sphereId else "object:" + Text.Strip(value.objectId)
  }

  /** `_normalize_semantic_object` */
  function NormalizeObject(value: ObjectInput, gripperCenter: Vec3, angularOrigin: Vec3)
    : Result<SemanticObject, SceneError>
  {
    var objectId := Text.Strip(value.objectId);
    var description := Text.Strip(value.description);
    var kind := KindOf(value.requestedType);
    var scope := ChooseScope(value, gripperCenter);
    if objectId == "" then Err(MissingObjectId)
    else if kind.None? then Err(UnsupportedType)
    else if kind.value.KeepOut? && description == "" then Err(MissingDescription)
    else if scope.Err? then Err(scope.error)
    else if value.radius <= 0.0 then Err(BadRadius)
    else if Dist2(value.center, RoiCenter(scope.value, gripperCenter, angularOrigin)) > Squared(RoiRadius(scope.value))
    then Err(OutsideRois)
    else
      var radius := Max(value.radius, MinimumRadius(scope.value));
      Ok(SemanticObject(Sphere(SphereIdOf(value), objectId, value.center, Squared(radius), kind.value, scope.value),
                        radius, description, value.source))
  }

  function NormalizeAll(values: seq<ObjectInput>, gripperCenter: Vec3, angularOrigin: Vec3)
    : Result<seq<SemanticObject>, SceneError>
  {
    if values == [] then Ok([])
    else
      var n := |values| - 1;
      var earlier := NormalizeAll(values[..n], gripperCenter, angularOrigin);
      if earlier.Err? then earlier
      else
        var last := NormalizeObject(values[n], gripperCenter, angularOrigin);
        if last.Err? then Err(last.error) else Ok(earlier.value + [last.value])
  }

  /** A tracked cell that meets a self sphere, margin included. */
  predicate OverlapsSelf(o: SemanticObject, spheres: seq<SelfSphere>, margin: real) {
    && "SAM2_TRACKED" <= o.source
    && exists s :: s in spheres && !IsBeyond(o.sphere.center, s.center, o.radius + s.radius + margin)
  }

  /** `_filter_sam2_semantic_self_geometry` */
  function Retained(objects: seq<SemanticObject>, spheres: seq<SelfSphere>, margin: real): (r: seq<SemanticObject>)
    ensures forall o :: o in r ==> o in objects
  {
    if objects == [] then []
    else
      var n := |objects| - 1;
      Retained(objects[..n], spheres, margin) + if OverlapsSelf(objects[n], spheres, margin) then [] else [objects[n]]
  }

  predicate HasDistinctIds(objects: seq<SemanticObject>) {
    forall i, j :: 0 <= i < j < |objects| ==> objects[i].sphere.sphereId != objects[j].sphere.sphereId
  }

  /** The sum of the squared distances of all points: the square of the norm the source takes. */
  function Total2(points: seq<Vec3>, q: Vec3): real {
    if points == [] then 0.0 else Total2(points[..|points| - 1], q) + Dist2(points[|points| - 1], q)
  }

  /** One norm over the whole array: the points all stay, or all go. */
  function OutsideObjects(points: seq<Vec3>, objects: seq<SemanticObject>): (r: seq<Vec3>)
    ensures forall p :: p in r ==> p in points
  {
    if forall o :: o in objects ==> Total2(points, o.sphere.center) > o.sphere.radius2 then points else []
  }

  // ----- visible-surface boxes

  function Corners(a: AabbInput): map<Corner, Vec3> {
    var low, high := a.minimum, a.maximum;
    map[Corner(true, true, true) := Vec3(high.x, low.y, high.z),
        Corner(false, true, true) := Vec3(high.x, high.y, high.z),
        Corner(true, false, true) := Vec3(low.x, low.y, high.z),
        Corner(false, false, true) := Vec3(low.x, high.y, high.z),
        Corner(true, true, false) := Vec3(high.x, low.y, low.z),
        Corner(false, true, false) := Vec3(high.x, high.y, low.z),
        Corner(true, false, false) := Vec3(low.x, low.y, low.z),
        Corner(false, false, false) := Vec3(low.x, high.y, low.z)]
  }

  const AXIS_SEMANTICS := map[Forward := "+X", Backward := "-X", Left := "+Y", Right := "-Y", Up := "+Z", Down := "-Z"]

  predicate IsProperAabb(a: AabbInput) {
    && a.extentKind == "VISIBLE_SURFACE_AABB" && Text.Strip(a.objectId) != "" && a.kind == "WORK_OBJECT"
    && a.frameId == "rebot_arm_base"
    && a.maximum.x >= a.minimum.x && a.maximum.y >= a.minimum.y && a.maximum.z >= a.minimum.z
    && a.observedAtUs > 0 && a.freshnessMs > 0 && a.expiresAtUs == a.observedAtUs + a.freshnessMs * 1000
  }

  /** `_normalize_visible_surface_aabb`, when its checks pass. */
  function NormalizedAabb(a: AabbInput): V.Aabb {
    V.Aabb("VISIBLE_SURFACE_AABB", Text.Strip(a.objectId), "WORK_OBJECT", "rebot_arm_base",
           "MIDBRAIN_X_FORWARD_Y_LEFT_Z_UP_V2",
           a.description, a.observedAtUs, a.freshnessMs, a.expiresAtUs, a.minimum, a.maximum,
           Vec3((a.minimum.x + a.maximum.x) * 0.5, (a.minimum.y + a.maximum.y) * 0.5,
                (a.minimum.z + a.maximum.z) * 0.5),
           Vec3(a.maximum.x - a.minimum.x, a.maximum.y - a.minimum.y, a.maximum.z - a.minimum.z),
           Corners(a), AXIS_SEMANTICS)
  }

  function IndexOf(boxes: seq<V.Aabb>, objectId: string): (k: nat)
    ensures k <= |boxes| && (k < |boxes| ==> boxes[k].objectId == objectId)
    ensures forall j :: 0 <= j < k ==> boxes[j].objectId != objectId
  {
    if boxes == [] || boxes[0].objectId == objectId then 0 else 1 + IndexOf(boxes[1..], objectId)
  }

  /** A strictly newer box takes the place of the object's current one. */
  function Remember(boxes: seq<V.Aabb>, box: V.Aabb): seq<V.Aabb> {
    var k := IndexOf(boxes, box.objectId);
    if k == |boxes| then boxes + [box]
    else if box.observedAtUs > boxes[k].observedAtUs then boxes[k := box]
    else boxes
  }

  function CollectAabbs(values: seq<AabbInput>): Result<seq<V.Aabb>, SceneError> {
    if values == [] then Ok([])
    else
      var n := |values| - 1;
      var earlier := CollectAabbs(values[..n]);
      if earlier.Err? || values[n].kind != "WORK_OBJECT" then earlier
      else if !IsProperAabb(values[n]) then Err(BadAabb)
      else Ok(Remember(earlier.value, NormalizedAabb(values[n])))
  }

  // ----- the scene

  function AngularOrigin(r: SceneRequest): Vec3 {
    if r.projection.Some? then r.projection.value.origin else r.gripperCenter
  }

  function Revision(r: SceneRequest): string {
    if Text.Strip(r.sceneRevision) != "" then Text.Strip(r.sceneRevision) else "scene-" + r.contentToken
  }

  /** The points left for voxels. */
  function RemainingPoints(r: SceneRequest, objects: seq<SemanticObject>): seq<Vec3> {
    OutsideObjects(ClearPoints(InBase(r.points), r.selfSpheres, r.margin, r.gripperCenter), objects)
  }

  function NearPoints(points: seq<Vec3>, gripperCenter: Vec3, near: bool): (r: seq<Vec3>)
    ensures forall p :: p in r <==> p in points && IsNear(p, gripperCenter) == near
  {
    if points == [] then []
    else
      var n := |points| - 1;
      assert forall p :: p in points <==> p in points[..n] || p == points[n];
      NearPoints(points[..n], gripperCenter, near)
      + if IsNear(points[n], gripperCenter) == near then [points[n]] else []
  }

  function MinInt(a: int, b: int): int {
    if a < b then a else b
  }

  /** `min(available, max(1, int(available * 0.75)))` */
  function GripperBudget(available: nat): nat {
    MinInt(available, if available * 3 / 4 < 1 then 1 else available * 3 / 4)
  }

  /** The voxel spheres of one layer, at the first of the growing edges that fits. */
  ghost predicate IsVoxelLayer(spheres: seq<Sphere>, points: seq<Vec3>, center: Vec3, scope: Scope, budget: int,
                               largest: Length)
  {
    if points == [] then spheres == []
    else |spheres| <= budget && exists edge :: IsVoxelLayerAt(spheres, points, center, scope, budget, largest, edge)
  }

  ghost predicate IsVoxelLayerAt(spheres: seq<Sphere>, points: seq<Vec3>, center: Vec3, scope: Scope, budget: int,
                                 largest: Length, edge: Edge)
  {
    var minimum := MinimumRadius(scope);
    && AreCellSpheres(spheres, UniqueCells(points, center, edge), points, center, edge, scope, minimum, Pushable)
    && HasFirstFit(points, center, minimum, budget, largest, edge)
  }

  predicate LacksSelfFilter(r: SceneRequest) {
    InBase(r.points) != [] && (Text.Strip(r.selfFilterRevision) == "" || r.selfSpheres == [])
  }

  predicate HasBadSelfSphere(r: SceneRequest) {
    InBase(r.points) != [] && exists s :: s in r.selfSpheres && s.radius <= 0.0
  }

  predicate HasBadProjection(r: SceneRequest) {
    r.projection.Some? && !r.projection.value.valid
  }

  /** The voxel pass of a layer has no room. */
  predicate CannotCompile(points: seq<Vec3>, budget: int) {
    points != [] && budget <= 0
  }

  /** One of the layers cannot be compiled; the base layer gets what the gripper's leaves. */
  ghost predicate LayersFail(r: SceneRequest, points: seq<Vec3>, available: nat) {
    var near, far := NearPoints(points, r.gripperCenter, true), NearPoints(points, r.gripperCenter, false);
    && r.publishUnclaimed
    && (CannotCompile(near, GripperBudget(available))
        || exists spheres ::
             IsVoxelLayer(spheres, near, r.gripperCenter, Gripper, GripperBudget(available), r.largestFloat)
             && CannotCompile(far, available - |spheres|))
  }

  /** Why the compiler refuses a request. */
  ghost predicate IsRefusedFor(e: SceneError, r: SceneRequest) {
    var all := NormalizeAll(r.objects, r.gripperCenter, AngularOrigin(r));
    match e
    case SelfFilterRequired => LacksSelfFilter(r)
    case BadSelfSphere => HasBadSelfSphere(r)
    case BadProjection => HasBadProjection(r)
    case BadAabb => CollectAabbs(r.aabbs) == Err(BadAabb)
    case DuplicateSphereId => all.Ok? && !HasDistinctIds(Retained(all.value, r.selfSpheres, r.margin))
    case TooManyObjects => all.Ok? && |Retained(all.value, r.selfSpheres, r.margin)| > r.maximumSpheres
    case NoRoom =>
      && all.Ok?
      && var objects := Retained(all.value, r.selfSpheres, r.margin);
         |objects| <= r.maximumSpheres && LayersFail(r, RemainingPoints(r, objects), r.maximumSpheres - |objects|)
    case _ => all == Err(e)
  }

  lemma {:induction false} BoxError(values: seq<AabbInput>)
    ensures CollectAabbs(values).Err? ==> CollectAabbs(values) == Err(BadAabb)
  {
    if values != [] {
      BoxError(values[..|values| - 1]);
    }
  }

  predicate IsObjectError(e: SceneError) {
    e in {MissingObjectId, UnsupportedType, MissingDescription, UnsupportedScope, OutsideRois, BadRadius}
  }

  lemma {:induction false} ObjectError(values: seq<ObjectInput>, gripperCenter: Vec3, angularOrigin: Vec3)
    ensures var all := NormalizeAll(values, gripperCenter, angularOrigin); all.Err? ==> IsObjectError(all.error)
  {
    hide Dist2;
    if values != [] {
      ObjectError(values[..|values| - 1], gripperCenter, angularOrigin);
    }
  }

  /** What the compiler returns for a request. */
  ghost predicate IsBuiltFor(b: Built, r: SceneRequest) {
    var all := NormalizeAll(r.objects, r.gripperCenter, AngularOrigin(r));
    && !LacksSelfFilter(r) && !HasBadSelfSphere(r) && !HasBadProjection(r)
    && b.revision == Revision(r) && b.gripperCenter == r.gripperCenter && b.angularOrigin == AngularOrigin(r)
    && all.Ok? && b.objects == Retained(all.value, r.selfSpheres, r.margin) && HasDistinctIds(b.objects)
    && |b.objects| <= r.maximumSpheres
    && CollectAabbs(r.aabbs) == Ok(b.aabbs)
    && HasLayers(b, r, RemainingPoints(r, b.objects))
  }

  ghost predicate HasLayers(b: Built, r: SceneRequest, points: seq<Vec3>)
    requires |b.objects| <= r.maximumSpheres
  {
    var available := r.maximumSpheres - |b.objects|;
    if !r.publishUnclaimed then b.gripperSpheres == [] && b.baseSpheres == []
    else
      && IsVoxelLayer(b.gripperSpheres, NearPoints(points, r.gripperCenter, true), r.gripperCenter, Gripper,
                      GripperBudget(available), r.largestFloat)
      && IsVoxelLayer(b.baseSpheres, NearPoints(points, r.gripperCenter, false), ZERO, ArmBase,
                      available - |b.gripperSpheres|, r.largestFloat)
  }

  /** The voxel pass of one layer. */
  method CompileLayer(points: seq<Vec3>, center: Vec3, scope: Scope, budget: int, largest: Length)
    returns (result: Result<seq<Sphere>, SceneError>)
    ensures result.Ok? ==> IsVoxelLayer(result.value, points, center, scope, budget, largest)
    ensures result.Err? <==> CannotCompile(points, budget)
    ensures result.Err? ==> result.error == NoRoom
  {
    hide AreCellSpheres, HasFirstFit, UniqueCells;
    var voxels, edge := VoxelSpheres(points, center, scope, MinimumRadius(scope), budget, Pushable, largest);
    if voxels.Err? {
      return Err(NoRoom);
    }
    assert points != [] ==> IsVoxelLayerAt(voxels.value, points, center, scope, budget, largest, edge);
    return Ok(voxels.value);
  }

  /** Both voxel layers; the gripper's comes first and takes at most three quarters of the room. */
  method CompileLayers(r: SceneRequest, points: seq<Vec3>, available: nat)
    returns (result: Result<(seq<Sphere>, seq<Sphere>), SceneError>)
    ensures result.Ok? ==>
      if !r.publishUnclaimed then result.value == ([], [])
      else
        && IsVoxelLayer(result.value.0, NearPoints(points, r.gripperCenter, true), r.gripperCenter, Gripper,
                        GripperBudget(available), r.largestFloat)
        && IsVoxelLayer(result.value.1, NearPoints(points, r.gripperCenter, false), ZERO, ArmBase,
                        available - |result.value.0|, r.largestFloat)
    ensures result.Err? ==> LayersFail(r, points, available) && result.error == NoRoom
  {
    hide *;
    if !r.publishUnclaimed {
      return Ok(([], []));
    }
    var near, far := NearPoints(points, r.gripperCenter, true), NearPoints(points, r.gripperCenter, false);
    var gripper := CompileLayer(near, r.gripperCenter, Gripper, GripperBudget(available), r.largestFloat);
    if gripper.Err? {
      GripperFails(r, points, available);
      return Err(gripper.error);
    }
    var base := CompileLayer(far, ZERO, ArmBase, available - |gripper.value|, r.largestFloat);
    if base.Err? {
      BaseFails(r, points, available, gripper.value);
      return Err(base.error);
    }
    return Ok((gripper.value, base.value));
  }

  lemma GripperFails(r: SceneRequest, points: seq<Vec3>, available: nat)
    requires r.publishUnclaimed && CannotCompile(NearPoints(points, r.gripperCenter, true), GripperBudget(available))
    ensures LayersFail(r, points, available)
  {
    hide NearPoints, GripperBudget, IsVoxelLayer;
  }

  lemma BaseFails(r: SceneRequest, points: seq<Vec3>, available: nat, spheres: seq<Sphere>)
    requires r.publishUnclaimed
    requires IsVoxelLayer(spheres, NearPoints(points, r.gripperCenter, true), r.gripperCenter, Gripper,
                          GripperBudget(available), r.largestFloat)
    requires CannotCompile(NearPoints(points, r.gripperCenter, false), available - |spheres|)
    ensures LayersFail(r, points, available)
  {
    hide NearPoints, GripperBudget, IsVoxelLayer, CannotCompile;
  }

  /** `build_layered_scene` */
  method BuildLayeredScene(r: SceneRequest) returns (result: Result<Built, SceneError>)
    ensures result.Ok? ==> IsBuiltFor(result.value, r)
    ensures result.Err? ==> IsRefusedFor(result.error, r)
  {
    BoxError(r.aabbs);
    ObjectError(r.objects, r.gripperCenter, AngularOrigin(r));
    hide LayersFail, InBase, ClearPoints, NormalizeAll, CollectAabbs, Retained, IsVoxelLayer, NearPoints,
         OutsideObjects, Revision, HasDistinctIds, GripperBudget, Text.Strip;
    var points := InBase(r.points);
    if points != [] && Text.Strip(r.selfFilterRevision) == "" {
      return Err(SelfFilterRequired);
    }
    NoPoints(r);
    var filtered := ApplySelfFilter(points, r.selfSpheres, r.margin, r.gripperCenter);
    if filtered.Err? {
      return Err(filtered.error);
    }
    if r.projection.Some? && !r.projection.value.valid {
      return Err(BadProjection);
    }
    var angularOrigin := if r.projection.Some? then r.projection.value.origin else r.gripperCenter;
    var normalized := NormalizeAll(r.objects, r.gripperCenter, angularOrigin);
    if normalized.Err? {
      return Err(normalized.error);
    }
    var boxes := CollectAabbs(r.aabbs);
    if boxes.Err? {
      return Err(boxes.error);
    }
    var objects := Retained(normalized.value, r.selfSpheres, r.margin);
    if !HasDistinctIds(objects) {
      return Err(DuplicateSphereId);
    }
    if |objects| > r.maximumSpheres {
      return Err(TooManyObjects);
    }
    var remaining := OutsideObjects(filtered.value, objects);
    var layers := CompileLayers(r, remaining, r.maximumSpheres - |objects|);
    if layers.Err? {
      return Err(layers.error);
    }
    return Ok(Built(Revision(r), r.gripperCenter, angularOrigin, objects, layers.value.0, layers.value.1, boxes.value));
  }

  lemma NoPoints(r: SceneRequest)
    ensures InBase(r.points) == [] ==> ClearPoints(InBase(r.points), r.selfSpheres, r.margin, r.gripperCenter) == []
  {
  }

  // ----- the semantic removal

  /** What removing point by point would keep. */
  function OutsideEach(points: seq<Vec3>, objects: seq<SemanticObject>): seq<Vec3> {
    if points == [] then []
    else
      var n := |points| - 1;
      OutsideEach(points[..n], objects)
      + if forall o :: o in objects ==> Dist2(points[n], o.sphere.center) > o.sphere.radius2 then [points[n]] else []
  }

  lemma {:induction false} TotalBoundsEach(points: seq<Vec3>, q: Vec3, p: Vec3)
    requires p in points
    ensures Dist2(p, q) <= Total2(points, q)
  {
    hide Dist2;
    var n := |points| - 1;
    assert points == points[..n] + [points[n]];
    Dist2IsNonNegative(points[n], q);
    TotalIsNonNegative(points[..n], q);
    if p != points[n] {
      TotalBoundsEach(points[..n], q, p);
    }
  }

  lemma {:induction false} TotalIsNonNegative(points: seq<Vec3>, q: Vec3)
    ensures Total2(points, q) >= 0.0
  {
    hide Dist2;
    if points != [] {
      TotalIsNonNegative(points[..|points| - 1], q);
      Dist2IsNonNegative(points[|points| - 1], q);
    }
  }

  lemma {:induction false} NoneOutside(points: seq<Vec3>, objects: seq<SemanticObject>, o: SemanticObject)
    requires o in objects && forall p :: p in points ==> Dist2(p, o.sphere.center) <= o.sphere.radius2
    ensures OutsideEach(points, objects) == []
  {
    hide Dist2;
    if points != [] {
      var n := |points| - 1;
      assert points[n] in points;
      NoneOutside(points[..n], objects, o);
    }
  }

  /** The source takes one norm over all points where a norm per point is meant.  It removes what it should exactly when
      no point is inside an object, or some object's sphere bounds even the joint norm; otherwise it keeps points that
      are inside an object. */
  lemma RemovalIsPerPointIff(points: seq<Vec3>, objects: seq<SemanticObject>)
    ensures OutsideObjects(points, objects) == OutsideEach(points, objects) <==>
      OutsideEach(points, objects) == points
      || exists o :: o in objects && Total2(points, o.sphere.center) <= o.sphere.radius2
  {
    hide Dist2;
    if o :| o in objects && Total2(points, o.sphere.center) <= o.sphere.radius2 {
      forall p | p in points
        ensures Dist2(p, o.sphere.center) <= o.sphere.radius2
      {
        TotalBoundsEach(points, o.sphere.center, p);
      }
      NoneOutside(points, objects, o);
    }
  }

  /** Two points a metre apart and an object around the first: the source keeps both. */
  lemma InsidePointIsKept(o: SemanticObject)
    requires o.sphere.center == ZERO && o.sphere.radius2 == 0.25
    ensures var points := [ZERO, Vec3(1.0, 0.0, 0.0)];
      OutsideObjects(points, [o]) == points && Dist2(points[0], o.sphere.center) <= o.sphere.radius2
  {
    var points := [ZERO, Vec3(1.0, 0.0, 0.0)];
    UnitDistances();
    hide Dist2;
    assert points[..1] == [ZERO] && [ZERO][..0] == [];
    assert Total2([ZERO], ZERO) == 0.0;
    assert Total2(points, ZERO) == 1.0;
  }

  lemma UnitDistances()
    ensures Dist2(ZERO, ZERO) == 0.0 && Dist2(Vec3(1.0, 0.0, 0.0), ZERO) == 1.0
  {
    UnitSquares();
    hide Squared;
    assert 1.0 - 0.0 == 1.0 && 0.0 - 0.0 == 0.0;
  }

  lemma UnitSquares()
    ensures Squared(0.0) == 0.0 && Squared(1.0) == 1.0
  {
  }

  // ----- the scene as it travels

  function KindText(kind: Kind): string {
    match kind
    case KeepOut => "KEEP_OUT"
    case Pushable => "PUSHABLE"
    case WorkObject => "WORK_OBJECT"
  }

  function WireOf(s: Sphere): V.WireSphere {
    V.WireSphere(s.sphereId, s.objectId, KindText(s.kind), ScopeText(s.scope), s.center,
                 V.Root(s.radius2))
  }

  function AllSpheres(b: Built): seq<Sphere> {
    seq(|b.objects|, i requires 0 <= i < |b.objects| => b.objects[i].sphere) + b.gripperSpheres + b.baseSpheres
  }

  function LayerOf(scope: Scope, center: Vec3): V.Layer {
    V.Layer(ScopeText(scope), center, Some(RoiRadius(scope)), Some(MinimumRadius(scope)))
  }

  predicate HasAngular(b: Built) {
    exists o :: o in b.objects && o.sphere.scope == HandAngular
  }

  function Wire(b: Built): V.Scene {
    var spheres := AllSpheres(b);
    V.Scene(
      2, b.revision, "rebot_arm_base",
      [LayerOf(Gripper, b.gripperCenter), LayerOf(ArmBase, ZERO)]
      + (if HasAngular(b) then [LayerOf(HandAngular, b.angularOrigin)] else []),
      seq(|spheres|, i requires 0 <= i < |spheres| => WireOf(spheres[i])),
      b.aabbs)
  }
}
