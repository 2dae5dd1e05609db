/** The Fabric's validator of semantic sphere scenes, over the scene as it travels. */
module SceneValidator {
  import opened Common
  import opened RigidTransforms
  import opened SceneTypes
  import Text

  /** `None` where the field is absent or no number. */
  datatype Layer = Layer(scope: string, center: Vec3, radius: Option<real>, minimum: Option<real>)

  /** A radius as it travels: the non-negative root of a number, a number below zero, or none. */
  datatype Radius = Root(square: real) | Negative | Missing

  datatype WireSphere = WireSphere(sphereId: string, objectId: string, kind: string, scope: string, center: Vec3,
                                   radius: Radius)

  datatype Aabb = Aabb(
    extentKind: string,
    objectId: string, kind: string,
    frameId: string, conventionId: string,
    description: Option<string>, observedAtUs: int,
    freshnessMs: int, expiresAtUs: int,
    minimum: Vec3, maximum: Vec3,
    center: Vec3, size: Vec3,
    corners: map<Corner, Vec3>,
    axisSemantics: map<Direction, string>)

  datatype Scene = Scene(
    contractVersion: int,
    revision: string, frameId: string,
    layers: seq<Layer>, spheres: seq<WireSphere>,
    aabbs: seq<Aabb>)

  const U64_LIMIT := 0x1_0000_0000_0000_0000

  // ----- what is accepted

  predicate IsClose(a: real, b: real) {
    -0.000000001 <= a - b <= 0.000000001
  }

  predicate IsCloseVector(a: Vec3, b: Vec3) {
    IsClose(a.x, b.x) && IsClose(a.y, b.y) && IsClose(a.z, b.z)
  }

  function RoiLimits(scope: string): Option<(real, real)> {
    if scope == "GRIPPER_0P5M" then Some((0.5, 0.02))
    else if scope == "ARM_BASE_1P2M" then Some((1.2, 0.06))
    else if scope == "HAND_ANGULAR_4PI" then Some((1.5, 0.005))
    else None
  }

  /** A number the source reads as NaN is far from nothing: every comparison with it fails. */
  predicate IsFar(x: Option<real>, expected: real) {
    x.Some? && !IsClose(x.value, expected)
  }

  predicate IsLayer(l: Layer) {
    var limits := RoiLimits(Text.Trim(l.scope));
    && limits.Some? && !IsFar(l.radius, limits.value.0) && !IsFar(l.minimum, limits.value.1)
    && (Text.Trim(l.scope) == "ARM_BASE_1P2M" ==> IsCloseVector(l.center, ZERO))
  }

  predicate IsFinite(r: Radius) {
    match r
    case Root(square) => square >= 0.0
    case Negative => true
    case Missing => false
  }

  /** The radius is below the number, which is not negative. */
  predicate IsBelow(r: Radius, minimum: real) {
    r.Negative? || (r.Root? && r.square < Squared(minimum))
  }

  predicate IsSphereIn(s: WireSphere, l: Layer) {
    && IsFinite(s.radius) && !(l.minimum.Some? && IsBelow(s.radius, l.minimum.value))
    && !(l.radius.Some? && Dist2(s.center, l.center) > Squared(l.radius.value + 0.000000000001))
  }

  predicate IsSphere(s: WireSphere, layers: map<string, Layer>) {
    && Text.Trim(s.sphereId) != "" && Text.Trim(s.objectId) != ""
    && s.kind in ["KEEP_OUT", "PUSHABLE", "WORK_OBJECT"]
    && s.scope in layers && IsSphereIn(s, layers[s.scope])
  }

  /** `as_u64().unwrap_or(0)` */
  function AsU64(n: int): nat {
    if 0 <= n < U64_LIMIT then n else 0
  }

  function SaturatingAdd(a: nat, b: nat): nat {
    if a + b < U64_LIMIT then a + b else U64_LIMIT - 1
  }

  function SaturatingMul(a: nat, b: nat): nat {
    if a * b < U64_LIMIT then a * b else U64_LIMIT - 1
  }

  predicate HasTimes(a: Aabb) {
    && AsU64(a.observedAtUs) != 0 && AsU64(a.freshnessMs) != 0
    && AsU64(a.expiresAtUs) == SaturatingAdd(AsU64(a.observedAtUs), SaturatingMul(AsU64(a.freshnessMs), 1000))
  }

  predicate HasGeometry(a: Aabb) {
    && a.maximum.x >= a.minimum.x && a.maximum.y >= a.minimum.y && a.maximum.z >= a.minimum.z
    && IsCloseVector(a.center, Vec3((a.minimum.x + a.maximum.x) * 0.5, (a.minimum.y + a.maximum.y) * 0.5,
                                    (a.minimum.z + a.maximum.z) * 0.5))
    && IsCloseVector(a.size, Vec3(a.maximum.x - a.minimum.x, a.maximum.y - a.minimum.y, a.maximum.z - a.minimum.z))
  }

  /** `corner_layout`: a forward corner takes the upper x, a left one the upper y, an upper one the upper z. */
  function CornerAt(a: Aabb, c: Corner): Vec3 {
    Vec3(if c.forward then a.maximum.x else a.minimum.x,
         if c.right then a.minimum.y else a.maximum.y,
         if c.up then a.maximum.z else a.minimum.z)
  }

  predicate HasCorner(a: Aabb, c: Corner) {
    c in a.corners && IsCloseVector(a.corners[c], CornerAt(a, c))
  }

  predicate HasCorners(a: Aabb) {
    && HasCorner(a, Corner(true, true, true)) && HasCorner(a, Corner(false, true, true))
    && HasCorner(a, Corner(true, false, true)) && HasCorner(a, Corner(false, false, true))
    && HasCorner(a, Corner(true, true, false)) && HasCorner(a, Corner(false, true, false))
    && HasCorner(a, Corner(true, false, false)) && HasCorner(a, Corner(false, false, false))
  }

  predicate HasAxis(a: Aabb, d: Direction, text: string) {
    d in a.axisSemantics && a.axisSemantics[d] == text
  }

  predicate HasAxes(a: Aabb) {
    && HasAxis(a, Forward, "+X") && HasAxis(a, Backward, "-X") && HasAxis(a, Left, "+Y")
    && HasAxis(a, Right, "-Y") && HasAxis(a, Up, "+Z") && HasAxis(a, Down, "-Z")
  }

  predicate IsAabb(a: Aabb) {
    && a.extentKind == "VISIBLE_SURFACE_AABB" && a.kind == "WORK_OBJECT" && a.frameId == "rebot_arm_base"
    && a.conventionId == "MIDBRAIN_X_FORWARD_Y_LEFT_Z_UP_V2"
    && Text.Trim(a.objectId) != "" && a.description.Some? && Text.Trim(a.description.value) != ""
    && HasTimes(a) && HasGeometry(a) && HasCorners(a) && HasAxes(a)
  }

  predicate AreAabbs(aabbs: seq<Aabb>) {
    && |aabbs| <= 1024 && (forall i :: 0 <= i < |aabbs| ==> IsAabb(aabbs[i]))
    && forall i, j :: 0 <= i < j < |aabbs| ==> Text.Trim(aabbs[i].objectId) != Text.Trim(aabbs[j].objectId)
  }

  predicate FitTogether(layers: seq<Layer>) {
    && (forall i :: 0 <= i < |layers| ==> IsLayer(layers[i]))
    && forall i, j :: 0 <= i < j < |layers| ==> Text.Trim(layers[i].scope) != Text.Trim(layers[j].scope)
  }

  predicate AreLayers(layers: seq<Layer>) {
    layers != [] && FitTogether(layers)
  }

  /** The layers by trimmed scope. */
  function LayerMap(layers: seq<Layer>): map<string, Layer> {
    if layers == [] then map[]
    else
      var n := |layers| - 1;
      LayerMap(layers[..n])[Text.Trim(layers[n].scope) := layers[n]]
  }

  predicate AreSpheres(spheres: seq<WireSphere>, layers: map<string, Layer>) {
    && (forall i :: 0 <= i < |spheres| ==> IsSphere(spheres[i], layers))
    && forall i, j :: 0 <= i < j < |spheres| ==> Text.Trim(spheres[i].sphereId) != Text.Trim(spheres[j].sphereId)
  }

  predicate Accepts(s: Scene) {
    && s.contractVersion == 2 && Text.Trim(s.revision) != "" && s.frameId == "rebot_arm_base"
    && AreLayers(s.layers) && AreSpheres(s.spheres, LayerMap(s.layers)) && AreAabbs(s.aabbs)
  }

  // ----- the validator

  /** `validate_semantic_sphere_scene_observation`, from the parsed data on. */
  method Validate(s: Scene) returns (ok: bool)
    ensures ok == Accepts(s)
  {
    hide AreLayers, AreSpheres, AreAabbs, LayerMap, Text.Trim;
    if s.contractVersion != 2 || Text.Trim(s.revision) == "" || s.frameId != "rebot_arm_base" {
      return false;
    }
    var layersOk, layers := ValidateLayers(s.layers);
    if !layersOk {
      return false;
    }
    var spheresOk := ValidateSpheres(s.spheres, layers);
    if !spheresOk {
      return false;
    }
    ok := ValidateAabbs(s.aabbs);
  }

  lemma LayerMapStep(raw: seq<Layer>, i: nat)
    requires i < |raw|
    ensures LayerMap(raw[..i + 1]) == LayerMap(raw[..i])[Text.Trim(raw[i].scope) := raw[i]]
    ensures LayerMap(raw[..0]) == map[]
  {
    assert raw[..i + 1][..i] == raw[..i];
    hide Text.Trim;
  }

  lemma {:induction false} LayerMapKeys(layers: seq<Layer>, scope: string)
    ensures scope in LayerMap(layers) <==> exists k :: 0 <= k < |layers| && Text.Trim(layers[k].scope) == scope
  {
    hide Text.Trim;
    if layers != [] {
      var n := |layers| - 1;
      LayerMapKeys(layers[..n], scope);
      assert forall k :: 0 <= k < n ==> layers[..n][k] == layers[k];
    }
  }

  lemma FitAppend(layers: seq<Layer>, l: Layer)
    ensures FitTogether(layers + [l]) <==>
            FitTogether(layers) && IsLayer(l) && Text.Trim(l.scope) !in LayerMap(layers)
  {
    LayerMapKeys(layers, Text.Trim(l.scope));
    hide IsLayer, Text.Trim, LayerMap;
    var more := layers + [l];
    assert forall k :: 0 <= k < |layers| ==> more[k] == layers[k];
    assert more[|layers|] == l;
    if FitTogether(more) {
      assert FitTogether(layers);
    }
  }

  lemma FitPrefix(raw: seq<Layer>, i: nat)
    requires i <= |raw| && FitTogether(raw)
    ensures FitTogether(raw[..i])
  {
    hide IsLayer, Text.Trim;
  }

  lemma FitStep(raw: seq<Layer>, i: nat)
    requires i < |raw|
    ensures FitTogether(raw[..i + 1]) <==>
            FitTogether(raw[..i]) && IsLayer(raw[i]) && Text.Trim(raw[i].scope) !in LayerMap(raw[..i])
    ensures FitTogether(raw) ==> FitTogether(raw[..i + 1])
    ensures FitTogether(raw[..0])
  {
    assert raw[..i + 1] == raw[..i] + [raw[i]];
    FitAppend(raw[..i], raw[i]);
    if FitTogether(raw) {
      FitPrefix(raw, i + 1);
    }
    assert FitTogether([]);
    hide FitTogether, IsLayer, Text.Trim, LayerMap;
  }

  method ValidateLayers(raw: seq<Layer>) returns (ok: bool, layers: map<string, Layer>)
    ensures ok == AreLayers(raw) && (ok ==> layers == LayerMap(raw))
  {
    layers := map[];
    if raw == [] {
      return false, layers;
    }
    LayerMapStep(raw, 0);
    FitStep(raw, 0);
    hide IsLayer, Text.Trim, LayerMap, FitTogether;
    for i := 0 to |raw|
      invariant layers == LayerMap(raw[..i]) && FitTogether(raw[..i])
    {
      FitStep(raw, i);
      LayerMapStep(raw, i);
      if !IsLayer(raw[i]) {
        return false, layers;
      }
      var scope := Text.Trim(raw[i].scope);
      if scope in layers {
        return false, layers;
      }
      layers := layers[scope := raw[i]];
    }
    assert raw[..|raw|] == raw;
    ok := true;
  }

  method ValidateSpheres(raw: seq<WireSphere>, layers: map<string, Layer>) returns (ok: bool)
    ensures ok == AreSpheres(raw, layers)
  {
    hide IsSphere, Text.Trim;
    var sphereIds := {};
    for i := 0 to |raw|
      invariant forall k :: 0 <= k < i ==> IsSphere(raw[k], layers) && Text.Trim(raw[k].sphereId) in sphereIds
      invariant forall id :: id in sphereIds ==> exists k :: 0 <= k < i && Text.Trim(raw[k].sphereId) == id
      invariant forall j, k :: 0 <= j < k < i ==> Text.Trim(raw[j].sphereId) != Text.Trim(raw[k].sphereId)
    {
      var id := Text.Trim(raw[i].sphereId);
      if id in sphereIds || !IsSphere(raw[i], layers) {
        return false;
      }
      sphereIds := sphereIds + {id};
    }
    ok := true;
  }

  method ValidateAabbs(raw: seq<Aabb>) returns (ok: bool)
    ensures ok == AreAabbs(raw)
  {
    hide IsAabb, Text.Trim;
    if |raw| > 1024 {
      return false;
    }
    var objectIds := {};
    for i := 0 to |raw|
      invariant forall k :: 0 <= k < i ==> IsAabb(raw[k]) && Text.Trim(raw[k].objectId) in objectIds
      invariant forall id :: id in objectIds ==> exists k :: 0 <= k < i && Text.Trim(raw[k].objectId) == id
      invariant forall j, k :: 0 <= j < k < i ==> Text.Trim(raw[j].objectId) != Text.Trim(raw[k].objectId)
    {
      var id := Text.Trim(raw[i].objectId);
      if id in objectIds || !IsAabb(raw[i]) {
        return false;
      }
      objectIds := objectIds + {id};
    }
    ok := true;
  }

  // ----- what acceptance says of the spheres

  /** The sphere is where its region is and as large as the region asks, up to the validator's tolerances. */
  predicate KeepsRegion(s: WireSphere, l: Layer) {
    var limits := RoiLimits(Text.Trim(l.scope));
    && limits.Some?
    && Dist2(s.center, l.center) <= Squared(limits.value.0 + 0.000000001 + 0.000000000001)
    && s.radius.Root? && s.radius.square >= Squared(limits.value.1 - 0.000000001)
  }

  /** Whatever spheres are accepted with these layers keep to their regions. */
  ghost predicate BoundSpheres(layers: seq<Layer>) {
    forall spheres :: AreSpheres(spheres, LayerMap(layers)) ==> AllKeepRegions(spheres, LayerMap(layers))
  }

  predicate AllKeepRegions(spheres: seq<WireSphere>, layers: map<string, Layer>) {
    forall s :: s in spheres ==> s.scope in layers && KeepsRegion(s, layers[s.scope])
  }

  predicate IsStated(l: Layer) {
    l.radius.Some? && l.minimum.Some?
  }

  lemma SquaredGrows(a: real, b: real)
    requires 0.0 <= a <= b
    ensures Squared(a) <= Squared(b)
  {
    assert b * b - a * a == (b - a) * (b + a);
  }

  lemma StatedBounds(s: WireSphere, l: Layer)
    requires IsLayer(l) && IsStated(l) && IsSphereIn(s, l)
    ensures KeepsRegion(s, l)
  {
    hide Text.Trim, Dist2, Squared;
    var limits := RoiLimits(Text.Trim(l.scope)).value;
    SquaredGrows(l.radius.value + 0.000000000001, limits.0 + 0.000000001 + 0.000000000001);
    SquaredGrows(limits.1 - 0.000000001, l.minimum.value);
  }

  lemma {:induction false} LayerMapHolds(layers: seq<Layer>, scope: string)
    requires scope in LayerMap(layers)
    ensures LayerMap(layers)[scope] in layers && Text.Trim(LayerMap(layers)[scope].scope) == scope
  {
    hide Text.Trim;
    var n := |layers| - 1;
    if scope != Text.Trim(layers[n].scope) {
      LayerMapHolds(layers[..n], scope);
    }
  }

  lemma LayerIsFound(layers: seq<Layer>, l: Layer)
    requires FitTogether(layers) && l in layers
    ensures var scope := Text.Trim(l.scope); scope in LayerMap(layers) && LayerMap(layers)[scope] == l
  {
    hide LayerMap, IsLayer, Text.Trim;
    var k :| 0 <= k < |layers| && layers[k] == l;
    LayerMapKeys(layers, Text.Trim(l.scope));
    LayerMapHolds(layers, Text.Trim(l.scope));
  }

  /** A sphere the validator cannot measure against this layer: it is far off, and its radius is below zero. */
  function Stray(l: Layer, radius: Radius, x: real): WireSphere {
    WireSphere("s", "o", "KEEP_OUT", Text.Trim(l.scope), Vec3(l.center.x + x, l.center.y, l.center.z), radius)
  }

  lemma StrayIsSphere(layers: seq<Layer>, l: Layer, radius: Radius, x: real)
    requires FitTogether(layers) && l in layers && IsSphereIn(Stray(l, radius, x), l)
    ensures AreSpheres([Stray(l, radius, x)], LayerMap(layers))
  {
    LayerIsFound(layers, l);
    Text.TrimmedIsFixed("s");
    Text.TrimmedIsFixed("o");
    hide LayerMap, FitTogether, IsSphereIn, Text.Trim;
    assert IsSphere(Stray(l, radius, x), LayerMap(layers));
  }

  lemma StrayDistance(l: Layer, radius: Radius, x: real)
    ensures Dist2(Stray(l, radius, x).center, l.center) == x * x
  {
  }

  lemma UnstatedDoesNotBound(layers: seq<Layer>, l: Layer)
    requires AreLayers(layers) && l in layers && !IsStated(l)
    ensures !BoundSpheres(layers)
  {
    hide LayerMap, Text.Trim, Dist2, AreSpheres;
    var x, radius := if l.radius.None? then 10.0 else 0.0, if l.minimum.None? then Negative else Root(1.0);
    var s := Stray(l, radius, x);
    assert IsLayer(l);
    StrayDistance(l, radius, x);
    if l.minimum.Some? {
      SquaredGrows(l.minimum.value, 1.0);
    }
    if l.radius.Some? {
      assert Squared(l.radius.value + 0.000000000001) >= 0.0;
    }
    StrayIsSphere(layers, l, radius, x);
    LayerIsFound(layers, l);
    assert s in [s] && !KeepsRegion(s, l);
    assert !AllKeepRegions([s], LayerMap(layers));
  }

  /** Accepted layers make the accepted spheres keep to their regions exactly when every one of them states both its
      radius and its minimum. */
  lemma LayersBoundSpheresIff(layers: seq<Layer>)
    requires AreLayers(layers)
    ensures BoundSpheres(layers) <==> forall l :: l in layers ==> IsStated(l)
  {
    hide LayerMap, Text.Trim, KeepsRegion, IsSphereIn, IsLayer;
    if l :| l in layers && !IsStated(l) {
      UnstatedDoesNotBound(layers, l);
    } else {
      forall spheres: seq<WireSphere> | AreSpheres(spheres, LayerMap(layers))
        ensures AllKeepRegions(spheres, LayerMap(layers))
      {
        forall s: WireSphere | s in spheres
          ensures s.scope in LayerMap(layers) && KeepsRegion(s, LayerMap(layers)[s.scope])
        {
          assert IsSphere(s, LayerMap(layers));
          LayerMapHolds(layers, s.scope);
          StatedBounds(s, LayerMap(layers)[s.scope]);
        }
      }
    }
  }

  /** One layer without its radius and minimum, and one sphere a hundred metres off with a radius below zero. */
  const UNBOUNDED := Scene(2, "r", "rebot_arm_base", [Layer("GRIPPER_0P5M", ZERO, None, None)],
                           [WireSphere("s", "o", "KEEP_OUT", "GRIPPER_0P5M", Vec3(100.0, 0.0, 0.0), Negative)], [])

  /** It is accepted. */
  lemma UnboundedIsAccepted()
    ensures Accepts(UNBOUNDED) && Dist2(UNBOUNDED.spheres[0].center, UNBOUNDED.layers[0].center) == 10_000.0
  {
    hide Text.Trim, LayerMap, AreLayers, IsSphereIn, IsAabb;
    Text.TrimmedIsFixed("s");
    Text.TrimmedIsFixed("o");
    Text.TrimmedIsFixed("r");
    UnboundedLayers();
  }

  lemma UnboundedLayers()
    ensures var layers := UNBOUNDED.layers; AreLayers(layers) && LayerMap(layers) == map["GRIPPER_0P5M" := layers[0]]
    ensures IsSphereIn(UNBOUNDED.spheres[0], UNBOUNDED.layers[0])
  {
    hide Text.Trim, Dist2;
    Text.TrimmedIsFixed("GRIPPER_0P5M");
    var layers := UNBOUNDED.layers;
    assert layers[..0] == [] && LayerMap([]) == map[];
  }
}
