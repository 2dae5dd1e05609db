/** What the scene compiler returns, the Fabric's validator accepts: exactly when. */
module SceneContract {
  import opened Common
  import opened RigidTransforms
  import opened SceneTypes
  import opened Voxel
  import opened SceneCompiler
  import opened Decimals
  import V = SceneValidator
  import Text

  // ----- the layers

  lemma ScopeIsTrimmed(scope: Scope)
    ensures Text.Trim(ScopeText(scope)) == ScopeText(scope)
  {
    assert Text.IsTrimmed(ScopeText(scope));
    Text.TrimmedIsFixed(ScopeText(scope));
  }

  lemma LayerIsAccepted(scope: Scope, center: Vec3)
    requires scope == ArmBase ==> center == ZERO
    ensures V.IsLayer(LayerOf(scope, center))
  {
    ScopeIsTrimmed(scope);
    hide Text.Trim;
  }

  lemma ScopesDiffer(s: Scope, c: Vec3, t: Scope, d: Vec3)
    requires s != t
    ensures Text.Trim(LayerOf(s, c).scope) != Text.Trim(LayerOf(t, d).scope)
  {
    ScopeIsTrimmed(s);
    ScopeIsTrimmed(t);
    ScopeTextInjective(s, t);
    hide Text.Trim, ScopeText;
  }

  lemma ThreeFit(a: V.Layer, b: V.Layer, c: V.Layer)
    requires V.IsLayer(a) && V.IsLayer(b) && V.IsLayer(c) && Text.Trim(a.scope) != Text.Trim(b.scope)
    requires Text.Trim(a.scope) != Text.Trim(c.scope) && Text.Trim(b.scope) != Text.Trim(c.scope)
    ensures V.AreLayers([a, b]) && V.AreLayers([a, b] + [c])
  {
    hide V.IsLayer, Text.Trim;
  }

  lemma LayersAreAccepted(b: Built)
    ensures V.AreLayers(Wire(b).layers)
  {
    var g, a, h := LayerOf(Gripper, b.gripperCenter), LayerOf(ArmBase, ZERO), LayerOf(HandAngular, b.angularOrigin);
    WireLayers(b);
    hide *;
    LayerIsAccepted(Gripper, b.gripperCenter);
    LayerIsAccepted(ArmBase, ZERO);
    LayerIsAccepted(HandAngular, b.angularOrigin);
    ScopesDiffer(Gripper, b.gripperCenter, ArmBase, ZERO);
    ScopesDiffer(Gripper, b.gripperCenter, HandAngular, b.angularOrigin);
    ScopesDiffer(ArmBase, ZERO, HandAngular, b.angularOrigin);
    ThreeFit(g, a, h);
  }

  lemma WireLayers(b: Built)
    ensures var two := [LayerOf(Gripper, b.gripperCenter), LayerOf(ArmBase, ZERO)];
      Wire(b).layers == if HasAngular(b) then two + [LayerOf(HandAngular, b.angularOrigin)] else two
  {
    hide HasAngular, LayerOf;
  }

  function LayerFor(b: Built, scope: Scope): V.Layer {
    LayerOf(scope, RoiCenter(scope, b.gripperCenter, b.angularOrigin))
  }

  lemma LayerIsFound(b: Built, scope: Scope)
    requires scope == HandAngular ==> HasAngular(b)
    ensures var layers := V.LayerMap(Wire(b).layers);
      ScopeText(scope) in layers && layers[ScopeText(scope)] == LayerFor(b, scope)
  {
    ScopeIsTrimmed(Gripper);
    ScopeIsTrimmed(ArmBase);
    ScopeIsTrimmed(HandAngular);
    hide Text.Trim, HasAngular;
    var two := [LayerOf(Gripper, b.gripperCenter), LayerOf(ArmBase, ZERO)];
    MapOfTwo(two[0], two[1]);
    if HasAngular(b) {
      var all := Wire(b).layers;
      assert all == two + [LayerOf(HandAngular, b.angularOrigin)];
      assert all[..2] == two;
    } else {
      assert Wire(b).layers == two + [] == two;
    }
  }

  lemma MapOfTwo(a: V.Layer, b: V.Layer)
    ensures V.LayerMap([a, b]) == map[][Text.Trim(a.scope) := a][Text.Trim(b.scope) := b]
  {
    hide Text.Trim;
    assert [a, b][..1] == [a] && [a][..0] == [];
    assert V.LayerMap([a]) == map[][Text.Trim(a.scope) := a];
  }

  // ----- one sphere

  /** Inside its region and no smaller than the region's minimum. */
  predicate IsProper(s: Sphere, b: Built) {
    && Text.Trim(s.objectId) != ""
    && s.radius2 >= Squared(MinimumRadius(s.scope))
    && Dist2(s.center, RoiCenter(s.scope, b.gripperCenter, b.angularOrigin)) <= Squared(RoiRadius(s.scope))
    && (s.scope == HandAngular ==> HasAngular(b))
  }

  lemma ProperIsAcceptedIff(s: Sphere, b: Built)
    requires IsProper(s, b)
    ensures V.IsSphere(WireOf(s), V.LayerMap(Wire(b).layers)) <==> Text.Trim(s.sphereId) != ""
  {
    hide Text.Trim, HasAngular, V.LayerMap, Wire, Dist2, Squared;
    LayerIsFound(b, s.scope);
    V.SquaredGrows(RoiRadius(s.scope), RoiRadius(s.scope) + 0.000000000001);
    SquaredIsNonNegative(MinimumRadius(s.scope));
  }

  // ----- the semantic objects

  lemma NormalizedIsProper(value: ObjectInput, gripperCenter: Vec3, angularOrigin: Vec3)
    requires NormalizeObject(value, gripperCenter, angularOrigin).Ok?
    ensures var o := NormalizeObject(value, gripperCenter, angularOrigin).value;
      && Text.Trim(o.sphere.objectId) != "" && o.sphere.sphereId == SphereIdOf(value)
      && o.sphere.radius2 >= Squared(MinimumRadius(o.sphere.scope))
      && Dist2(o.sphere.center, RoiCenter(o.sphere.scope, gripperCenter, angularOrigin))
         <= Squared(RoiRadius(o.sphere.scope))
  {
    var o := NormalizeObject(value, gripperCenter, angularOrigin).value;
    Text.StrippedIsTrimmed(value.objectId);
    hide Text.Strip, Text.Trim, Dist2, SphereIdOf, KindOf, ChooseScope, RoiCenter;
    assert o.radius >= MinimumRadius(o.sphere.scope) >= 0.0;
    V.SquaredGrows(MinimumRadius(o.sphere.scope), o.radius);
  }

  lemma {:induction false} EachIsNormalized(values: seq<ObjectInput>, gripperCenter: Vec3, angularOrigin: Vec3,
                                            o: SemanticObject)
    requires var all := NormalizeAll(values, gripperCenter, angularOrigin); all.Ok? && o in all.value
    ensures exists value :: value in values && NormalizeObject(value, gripperCenter, angularOrigin) == Ok(o)
  {
    hide NormalizeObject;
    var n := |values| - 1;
    if NormalizeObject(values[n], gripperCenter, angularOrigin) == Ok(o) {
      assert values[n] in values;
    } else {
      EachIsNormalized(values[..n], gripperCenter, angularOrigin, o);
    }
  }

  lemma ObjectIsProper(b: Built, r: SceneRequest, o: SemanticObject) returns (value: ObjectInput)
    requires IsBuiltFor(b, r) && o in b.objects
    ensures IsProper(o.sphere, b) && value in r.objects && o.sphere.sphereId == SphereIdOf(value)
    ensures Text.Strip(value.objectId) != ""
  {
    hide NormalizeObject, HasLayers, HasDistinctIds, CollectAabbs, Revision, Text.Strip, Text.Trim;
    EachIsNormalized(r.objects, r.gripperCenter, AngularOrigin(r), o);
    value :| value in r.objects && NormalizeObject(value, r.gripperCenter, AngularOrigin(r)) == Ok(o);
    NormalizedIsProper(value, r.gripperCenter, AngularOrigin(r));
    NormalizedHasId(value, r.gripperCenter, AngularOrigin(r));
    hide NormalizeAll, Retained, Dist2, Squared;
  }

  lemma NormalizedHasId(value: ObjectInput, gripperCenter: Vec3, angularOrigin: Vec3)
    requires NormalizeObject(value, gripperCenter, angularOrigin).Ok?
    ensures Text.Strip(value.objectId) != ""
  {
    hide Text.Strip;
  }

  // ----- the voxel spheres

  /** The identifier of a cell's sphere. */
  function VoxelId(scope: Scope, c: Cell): string {
    "voxel:" + ScopeText(scope) + ":" + CellText(c)
  }

  lemma VoxelIdIsTrimmed(scope: Scope, c: Cell)
    ensures Text.Trim(VoxelId(scope, c)) == VoxelId(scope, c) && VoxelId(scope, c) != ""
    ensures Text.Trim("obstacle:" + ScopeText(scope) + ":" + CellText(c)) != ""
  {
    CellTextEnds(c);
    var prefix, obstacle := "voxel:" + ScopeText(scope) + ":", "obstacle:" + ScopeText(scope) + ":";
    assert prefix[0] == 'v' && obstacle[0] == 'o';
    hide CellText, ScopeText;
    EndsWith(prefix, CellText(c));
    EndsWith(obstacle, CellText(c));
  }

  lemma EndsWith(prefix: string, tail: string)
    requires prefix != "" && !Text.IsWhitespace(prefix[0]) && tail != "" && !Text.IsWhitespace(tail[|tail| - 1])
    ensures Text.Trim(prefix + tail) == prefix + tail && prefix + tail != ""
  {
    var s := prefix + tail;
    assert s[0] == prefix[0] && s[|s| - 1] == tail[|tail| - 1];
    Text.TrimmedIsFixed(s);
  }

  lemma CellTextEnds(c: Cell)
    ensures CellText(c) != "" && !Text.IsWhitespace(CellText(c)[|CellText(c)| - 1])
  {
    DecimalDenotes(if c.z < 0 then -c.z else c.z);
    var digits := Decimal(if c.z < 0 then -c.z else c.z);
    assert IsDigit(digits[|digits| - 1]);
    assert IntText(c.z)[|IntText(c.z)| - 1] == digits[|digits| - 1];
  }

  lemma ScopeTextInjective(s: Scope, t: Scope)
    ensures ScopeText(s) == ScopeText(t) ==> s == t
    ensures ':' !in ScopeText(s)
  {
    assert ScopeText(Gripper)[0] == 'G' && ScopeText(ArmBase)[0] == 'A' && ScopeText(HandAngular)[0] == 'H';
  }

  lemma VoxelIdInjective(s: Scope, c: Cell, t: Scope, d: Cell)
    requires VoxelId(s, c) == VoxelId(t, d)
    ensures s == t && c == d
  {
    ScopeTextInjective(s, t);
    ScopeTextInjective(t, s);
    hide CellText, ScopeText;
    VoxelIdTail(s, c);
    VoxelIdTail(t, d);
    hide VoxelId;
    SplitAtColon(ScopeText(s), ScopeText(t), CellText(c), CellText(d));
    CellTextInjective(c, d);
  }

  lemma VoxelIdTail(s: Scope, c: Cell)
    ensures |VoxelId(s, c)| > 6 && VoxelId(s, c)[6..] == ScopeText(s) + ":" + CellText(c)
    ensures "voxel:" <= VoxelId(s, c)
  {
    hide CellText, ScopeText;
    assert VoxelId(s, c) == "voxel:" + (ScopeText(s) + ":" + CellText(c));
  }

  /** What holds of each voxel sphere of a layer. */
  lemma VoxelSphereIs(spheres: seq<Sphere>, points: seq<Vec3>, center: Vec3, scope: Scope, budget: int, largest: Length,
                      edge: Edge, i: nat)
    requires IsVoxelLayerAt(spheres, points, center, scope, budget, largest, edge) && i < |spheres|
    requires forall p :: p in points ==> Dist2(p, center) <= Squared(RoiRadius(scope))
    ensures var cells := UniqueCells(points, center, edge);
      && |cells| == |spheres| && spheres[i].sphereId == VoxelId(scope, cells[i])
      && spheres[i].objectId == "obstacle:" + ScopeText(scope) + ":" + CellText(cells[i])
      && spheres[i].scope == scope && spheres[i].radius2 >= Squared(MinimumRadius(scope))
      && Dist2(spheres[i].center, center) <= Squared(RoiRadius(scope))
  {
    var cells := UniqueCells(points, center, edge);
    hide Dist2, UniqueCells, PointsIn, LargestDist2, Mean, CellText;
    CentersStayInside(points, center, edge, cells[i], scope, MinimumRadius(scope), Pushable, center,
                      Squared(RoiRadius(scope)));
  }

  ghost predicate AreVoxels(spheres: seq<Sphere>, scope: Scope) {
    && (forall s :: s in spheres ==> exists c :: s.sphereId == VoxelId(scope, c))
    && (forall i, j :: 0 <= i < j < |spheres| ==> spheres[i].sphereId != spheres[j].sphereId)
  }

  lemma LayerIsProper(spheres: seq<Sphere>, points: seq<Vec3>, center: Vec3, scope: Scope, budget: int, largest: Length,
                      b: Built)
    requires IsVoxelLayer(spheres, points, center, scope, budget, largest)
    requires forall p :: p in points ==> Dist2(p, center) <= Squared(RoiRadius(scope))
    requires scope != HandAngular && center == RoiCenter(scope, b.gripperCenter, b.angularOrigin)
    ensures forall s :: s in spheres ==> IsProper(s, b)
    ensures AreVoxels(spheres, scope)
  {
    hide Dist2, Squared, IsProper;
    if points != [] {
      var edge :| IsVoxelLayerAt(spheres, points, center, scope, budget, largest, edge);
      UniqueCellsAre(points, center, edge);
      hide IsVoxelLayerAt, UniqueCells, Cells, VoxelId;
      var cells := UniqueCells(points, center, edge);
      forall i | 0 <= i < |spheres|
        ensures IsProper(spheres[i], b) && |cells| == |spheres| && spheres[i].sphereId == VoxelId(scope, cells[i])
      {
        VoxelIsProper(spheres, points, center, scope, budget, largest, edge, i, b);
      }
      VoxelIdsDiffer(spheres, cells, scope);
    }
  }

  lemma VoxelIdsDiffer(spheres: seq<Sphere>, cells: seq<Cell>, scope: Scope)
    requires SortedCells(cells) && |cells| == |spheres|
    requires forall i :: 0 <= i < |spheres| ==> spheres[i].sphereId == VoxelId(scope, cells[i])
    ensures AreVoxels(spheres, scope)
  {
    hide SortedCells, VoxelId;
    forall i, j | 0 <= i < j < |spheres|
      ensures spheres[i].sphereId != spheres[j].sphereId
    {
      CellsDiffer(cells, i, j);
      if spheres[i].sphereId == spheres[j].sphereId {
        VoxelIdInjective(scope, cells[i], scope, cells[j]);
      }
    }
  }

  lemma VoxelIsProper(spheres: seq<Sphere>, points: seq<Vec3>, center: Vec3, scope: Scope, budget: int, largest: Length,
                      edge: Edge, i: nat, b: Built)
    requires IsVoxelLayerAt(spheres, points, center, scope, budget, largest, edge) && i < |spheres|
    requires forall p :: p in points ==> Dist2(p, center) <= Squared(RoiRadius(scope))
    requires scope != HandAngular && center == RoiCenter(scope, b.gripperCenter, b.angularOrigin)
    ensures IsProper(spheres[i], b)
    ensures var cells := UniqueCells(points, center, edge);
      |cells| == |spheres| && spheres[i].sphereId == VoxelId(scope, cells[i])
  {
    VoxelSphereIs(spheres, points, center, scope, budget, largest, edge, i);
    VoxelIdIsTrimmed(scope, UniqueCells(points, center, edge)[i]);
    hide IsVoxelLayerAt, UniqueCells, Dist2, Squared, VoxelId, Text.Trim, CellText, ScopeText, HasAngular;
  }

  lemma CellsDiffer(cells: seq<Cell>, i: nat, j: nat)
    requires SortedCells(cells) && i < j < |cells|
    ensures cells[i] != cells[j]
  {
    assert CellLess(cells[i], cells[j]);
  }

  lemma {:induction false} ClearStaysIn(points: seq<Vec3>, r: SceneRequest)
    requires forall p :: p in points ==> Dist2(p, ZERO) <= Squared(1.2)
    ensures forall p :: p in ClearPoints(points, r.selfSpheres, r.margin, r.gripperCenter) ==>
      Dist2(p, ZERO) <= Squared(1.2)
  {
    hide Dist2;
  }

  // The layers of a scene, and where their points lie.
  lemma BuiltLayers(b: Built, r: SceneRequest)
    requires IsBuiltFor(b, r)
    ensures b.gripperCenter == r.gripperCenter && |b.objects| <= r.maximumSpheres
    ensures forall p :: p in RemainingPoints(r, b.objects) ==> Dist2(p, ZERO) <= Squared(1.2)
    ensures var points := RemainingPoints(r, b.objects);
      var available := r.maximumSpheres - |b.objects|;
      if !r.publishUnclaimed then b.gripperSpheres == [] && b.baseSpheres == []
      else
        && IsVoxelLayer(b.gripperSpheres, NearPoints(points, r.gripperCenter, true), r.gripperCenter, Gripper,
                        GripperBudget(available), r.largestFloat)
        && IsVoxelLayer(b.baseSpheres, NearPoints(points, r.gripperCenter, false), ZERO, ArmBase,
                        available - |b.gripperSpheres|, r.largestFloat)
  {
    hide Dist2, Squared, ClearPoints, InBase, NormalizeAll, Retained, HasDistinctIds, CollectAabbs, Revision,
         IsVoxelLayer, NearPoints, GripperBudget;
    ClearStaysIn(InBase(r.points), r);
  }

  lemma NoSpheres(b: Built, scope: Scope)
    ensures AreVoxels([], scope)
  {
  }

  lemma NearPointsLie(points: seq<Vec3>, center: Vec3)
    requires forall p :: p in points ==> Dist2(p, ZERO) <= Squared(1.2)
    ensures forall p :: p in NearPoints(points, center, true) ==> Dist2(p, center) <= Squared(RoiRadius(Gripper))
    ensures forall p :: p in NearPoints(points, center, false) ==> Dist2(p, ZERO) <= Squared(RoiRadius(ArmBase))
  {
    hide NearPoints, Dist2, Squared;
  }

  lemma CentersOf(b: Built, r: SceneRequest)
    requires b.gripperCenter == r.gripperCenter
    ensures RoiCenter(Gripper, b.gripperCenter, b.angularOrigin) == r.gripperCenter
    ensures RoiCenter(ArmBase, b.gripperCenter, b.angularOrigin) == ZERO
  {
  }

  /** Both voxel layers of a scene. */
  lemma VoxelsAreProper(b: Built, r: SceneRequest)
    requires IsBuiltFor(b, r)
    ensures forall s :: s in b.gripperSpheres || s in b.baseSpheres ==> IsProper(s, b)
    ensures AreVoxels(b.gripperSpheres, Gripper) && AreVoxels(b.baseSpheres, ArmBase)
  {
    hide *;
    BuiltLayers(b, r);
    CentersOf(b, r);
    var points := RemainingPoints(r, b.objects);
    NearPointsLie(points, r.gripperCenter);
    if !r.publishUnclaimed {
      NoSpheres(b, Gripper);
      NoSpheres(b, ArmBase);
    } else {
      var available := r.maximumSpheres - |b.objects|;
      LayerIsProper(b.gripperSpheres, NearPoints(points, r.gripperCenter, true), r.gripperCenter, Gripper,
                    GripperBudget(available), r.largestFloat, b);
      LayerIsProper(b.baseSpheres, NearPoints(points, r.gripperCenter, false), ZERO, ArmBase,
                    available - |b.gripperSpheres|, r.largestFloat, b);
    }
  }

  // ----- the boxes

  /** The description says something, and the expiry fits the wire's integers. */
  predicate IsDescribed(a: V.Aabb) {
    a.description.Some? && Text.Trim(a.description.value) != "" && a.expiresAtUs < V.U64_LIMIT
  }

  lemma CornersAgree(a: AabbInput)
    ensures V.HasCorners(NormalizedAabb(a)) && V.HasAxes(NormalizedAabb(a))
  {
    hide Text.Strip;
  }

  lemma GeometryAgrees(a: AabbInput)
    requires IsProperAabb(a)
    ensures V.HasGeometry(NormalizedAabb(a))
  {
    hide Text.Strip, Corners;
  }

  lemma TimesFitIff(a: AabbInput)
    requires IsProperAabb(a)
    ensures V.HasTimes(NormalizedAabb(a)) <==> a.expiresAtUs < V.U64_LIMIT
  {
    hide Text.Strip;
  }

  lemma BoxIsAcceptedIff(a: AabbInput)
    requires IsProperAabb(a)
    ensures V.IsAabb(NormalizedAabb(a)) <==> IsDescribed(NormalizedAabb(a))
    ensures Text.Trim(NormalizedAabb(a).objectId) == NormalizedAabb(a).objectId
  {
    CornersAgree(a);
    GeometryAgrees(a);
    TimesFitIff(a);
    Text.StrippedIsTrimmed(a.objectId);
    hide Text.Strip, Text.Trim, V.HasTimes, V.HasCorners, V.HasAxes, V.HasGeometry, Corners;
  }

  /** Boxes of different objects, each as normalised. */
  ghost predicate AreCollected(boxes: seq<V.Aabb>) {
    && (forall k :: 0 <= k < |boxes| ==> IsNormalized(boxes[k]))
    && forall i, j :: 0 <= i < j < |boxes| ==> boxes[i].objectId != boxes[j].objectId
  }

  ghost predicate IsNormalized(box: V.Aabb) {
    exists a :: IsProperAabb(a) && box == NormalizedAabb(a)
  }

  lemma RememberKeeps(boxes: seq<V.Aabb>, box: V.Aabb)
    requires AreCollected(boxes) && IsNormalized(box)
    ensures AreCollected(Remember(boxes, box))
  {
    hide IsNormalized;
  }

  lemma {:induction false} CollectKeeps(values: seq<AabbInput>)
    ensures CollectAabbs(values).Ok? ==> AreCollected(CollectAabbs(values).value)
  {
    if values != [] {
      var n := |values| - 1;
      CollectKeeps(values[..n]);
      hide AreCollected, Remember, IsProperAabb, NormalizedAabb;
      if CollectAabbs(values[..n]).Ok? && IsProperAabb(values[n]) {
        assert IsNormalized(NormalizedAabb(values[n]));
        RememberKeeps(CollectAabbs(values[..n]).value, NormalizedAabb(values[n]));
      }
    }
  }

  lemma NormalizedIsAcceptedIff(box: V.Aabb)
    requires IsNormalized(box)
    ensures V.IsAabb(box) <==> IsDescribed(box)
    ensures Text.Trim(box.objectId) == box.objectId
  {
    var a :| IsProperAabb(a) && box == NormalizedAabb(a);
    BoxIsAcceptedIff(a);
    hide *;
  }

  predicate BoxesAreDescribed(boxes: seq<V.Aabb>) {
    |boxes| <= 1024 && forall box :: box in boxes ==> IsDescribed(box)
  }

  lemma BoxesAreAcceptedIff(boxes: seq<V.Aabb>)
    requires AreCollected(boxes)
    ensures V.AreAabbs(boxes) <==> BoxesAreDescribed(boxes)
  {
    forall k | 0 <= k < |boxes|
      ensures V.IsAabb(boxes[k]) <==> IsDescribed(boxes[k])
      ensures Text.Trim(boxes[k].objectId) == boxes[k].objectId
    {
      NormalizedIsAcceptedIff(boxes[k]);
      hide IsNormalized;
    }
    hide V.IsAabb, IsDescribed, IsNormalized, Text.Trim;
  }

  // ----- all spheres together

  ghost predicate TrimsDiffer(s: seq<Sphere>) {
    forall i, j :: 0 <= i < j < |s| ==> Text.Trim(s[i].sphereId) != Text.Trim(s[j].sphereId)
  }

  ghost predicate TrimsApart(a: seq<Sphere>, b: seq<Sphere>) {
    forall x, y :: x in a && y in b ==> Text.Trim(x.sphereId) != Text.Trim(y.sphereId)
  }

  lemma TrimsOfBoth(a: seq<Sphere>, b: seq<Sphere>)
    ensures TrimsDiffer(a + b) <==> TrimsDiffer(a) && TrimsDiffer(b) && TrimsApart(a, b)
  {
    hide Text.Trim;
    var s := a + b;
    if TrimsDiffer(s) {
      forall i, j | 0 <= i < j < |b|
        ensures Text.Trim(b[i].sphereId) != Text.Trim(b[j].sphereId)
      {
        assert s[|a| + i] == b[i] && s[|a| + j] == b[j];
      }
      forall x, y | x in a && y in b
        ensures Text.Trim(x.sphereId) != Text.Trim(y.sphereId)
      {
        var i :| 0 <= i < |a| && a[i] == x;
        var j :| 0 <= j < |b| && b[j] == y;
        assert s[i] == x && s[|a| + j] == y;
      }
      assert forall i :: 0 <= i < |a| ==> s[i] == a[i];
    }
  }

  ghost predicate HasTrims(s: seq<Sphere>) {
    forall x :: x in s ==> Text.Trim(x.sphereId) != ""
  }

  lemma SpheresAreAcceptedIff(b: Built)
    requires forall s :: s in AllSpheres(b) ==> IsProper(s, b)
    ensures V.AreSpheres(Wire(b).spheres, V.LayerMap(Wire(b).layers)) <==>
      HasTrims(AllSpheres(b)) && TrimsDiffer(AllSpheres(b))
  {
    var all, wire := AllSpheres(b), Wire(b).spheres;
    assert |wire| == |all|;
    hide AllSpheres;
    forall i | 0 <= i < |all|
      ensures wire[i] == WireOf(all[i])
      ensures V.IsSphere(wire[i], V.LayerMap(Wire(b).layers)) <==> Text.Trim(all[i].sphereId) != ""
    {
      ProperIsAcceptedIff(all[i], b);
    }
    hide Wire, V.IsSphere, V.LayerMap, Text.Trim, IsProper;
  }

  // Voxel identifiers are trimmed and differ across the layers.
  lemma VoxelsAreApart(gripper: seq<Sphere>, base: seq<Sphere>)
    requires AreVoxels(gripper, Gripper) && AreVoxels(base, ArmBase)
    ensures HasTrims(gripper + base) && TrimsDiffer(gripper + base)
    ensures forall s :: s in gripper + base ==> Text.Trim(s.sphereId) == s.sphereId && "voxel:" <= s.sphereId
  {
    forall s | s in gripper
      ensures Text.Trim(s.sphereId) == s.sphereId != "" && "voxel:" <= s.sphereId
    {
      VoxelIdOf(gripper, Gripper, s);
    }
    forall s | s in base
      ensures Text.Trim(s.sphereId) == s.sphereId != "" && "voxel:" <= s.sphereId
    {
      VoxelIdOf(base, ArmBase, s);
    }
    TrimsOfBoth(gripper, base);
    forall x, y | x in gripper && y in base
      ensures x.sphereId != y.sphereId
    {
      LayersDiffer(gripper, base, x, y);
    }
    hide VoxelId, Text.Trim;
  }

  lemma LayersDiffer(gripper: seq<Sphere>, base: seq<Sphere>, x: Sphere, y: Sphere)
    requires AreVoxels(gripper, Gripper) && AreVoxels(base, ArmBase) && x in gripper && y in base
    ensures x.sphereId != y.sphereId
  {
    hide VoxelId;
    var c :| x.sphereId == VoxelId(Gripper, c);
    var d :| y.sphereId == VoxelId(ArmBase, d);
    if x.sphereId == y.sphereId {
      VoxelIdInjective(Gripper, c, ArmBase, d);
    }
  }

  lemma VoxelIdOf(spheres: seq<Sphere>, scope: Scope, s: Sphere)
    requires AreVoxels(spheres, scope) && s in spheres
    ensures Text.Trim(s.sphereId) == s.sphereId != "" && "voxel:" <= s.sphereId
  {
    hide VoxelId, Text.Trim;
    var c :| s.sphereId == VoxelId(scope, c);
    VoxelIdIsTrimmed(scope, c);
    VoxelIdTail(scope, c);
  }

  function ObjectSpheres(b: Built): seq<Sphere> {
    seq(|b.objects|, i requires 0 <= i < |b.objects| => b.objects[i].sphere)
  }

  /** The identifiers of the semantic objects, trimmed, are not blank, differ from each other, and name no voxel. */
  ghost predicate ObjectIdsServe(b: Built) {
    HasTrims(ObjectSpheres(b)) && TrimsDiffer(ObjectSpheres(b))
    && forall x, y :: x in ObjectSpheres(b) && y in b.gripperSpheres + b.baseSpheres ==>
        Text.Trim(x.sphereId) != y.sphereId
  }

  lemma IdsServeIff(b: Built)
    requires AreVoxels(b.gripperSpheres, Gripper) && AreVoxels(b.baseSpheres, ArmBase)
    ensures HasTrims(AllSpheres(b)) && TrimsDiffer(AllSpheres(b)) <==> ObjectIdsServe(b)
  {
    var objects, voxels := ObjectSpheres(b), b.gripperSpheres + b.baseSpheres;
    assert AllSpheres(b) == objects + voxels;
    VoxelsAreApart(b.gripperSpheres, b.baseSpheres);
    TrimsOfBoth(objects, voxels);
    hide AreVoxels, TrimsDiffer, AllSpheres, ObjectSpheres, Text.Trim;
  }

  lemma AllAreProper(b: Built, r: SceneRequest)
    requires IsBuiltFor(b, r)
    ensures forall s :: s in AllSpheres(b) ==> IsProper(s, b)
  {
    VoxelsAreProper(b, r);
    hide IsProper, IsBuiltFor;
    forall o | o in b.objects
      ensures IsProper(o.sphere, b)
    {
      var _ := ObjectIsProper(b, r, o);
    }
  }

  lemma {:induction false} TrimKeepsStart(s: string)
    requires s != "" && !Text.IsWhitespace(s[0])
    ensures Text.Trim(s) != ""
  {
    assert Text.TrimStart(s) == s;
    TrimEndKeeps(s);
  }

  lemma {:induction false} TrimEndKeeps(s: string)
    requires s != "" && !Text.IsWhitespace(s[0])
    ensures Text.TrimEnd(s) != ""
  {
    if Text.IsWhitespace(s[|s| - 1]) {
      TrimEndKeeps(s[..|s| - 1]);
    }
  }

  lemma RevisionIsAccepted(r: SceneRequest)
    ensures Text.Trim(Revision(r)) != ""
  {
    Text.StrippedIsTrimmed(r.sceneRevision);
    TrimKeepsStart("scene-" + r.contentToken);
    hide Text.Strip, Text.Trim;
  }

  // ----- the theorem

  /** A scene the compiler returns is accepted by the Fabric exactly when its objects' identifiers serve, and there
      are at most 1024 boxes, each described and expiring within the wire's integers. */
  lemma ProducerMeetsValidatorIff(b: Built, r: SceneRequest)
    requires IsBuiltFor(b, r)
    ensures V.Accepts(Wire(b)) <==> ObjectIdsServe(b) && BoxesAreDescribed(b.aabbs)
  {
    AllAreProper(b, r);
    VoxelsAreProper(b, r);
    SpheresAreAcceptedIff(b);
    IdsServeIff(b);
    LayersAreAccepted(b);
    RevisionIsAccepted(r);
    CollectKeeps(r.aabbs);
    BuiltBoxes(b, r);
    BoxesAreAcceptedIff(b.aabbs);
    WireIs(b);
    hide *;
    AcceptsIs(Wire(b));
  }

  lemma BuiltBoxes(b: Built, r: SceneRequest)
    requires IsBuiltFor(b, r)
    ensures CollectAabbs(r.aabbs) == Ok(b.aabbs) && b.revision == Revision(r)
  {
  }

  lemma WireIs(b: Built)
    ensures Wire(b).contractVersion == 2 && Wire(b).revision == b.revision && Wire(b).frameId == "rebot_arm_base"
    ensures Wire(b).aabbs == b.aabbs
  {
  }

  lemma AcceptsIs(s: V.Scene)
    ensures V.Accepts(s) <==>
      && s.contractVersion == 2 && Text.Trim(s.revision) != "" && s.frameId == "rebot_arm_base"
      && V.AreLayers(s.layers) && V.AreSpheres(s.spheres, V.LayerMap(s.layers)) && V.AreAabbs(s.aabbs)
  {
  }

  /** A supplied identifier that needs no trimming and does not take the voxels' name space. */
  predicate IsServiceable(sphereId: string) {
    sphereId == "" || (Text.IsTrimmed(sphereId) && !("voxel:" <= sphereId))
  }

  lemma VoxelPrefix(id: string)
    requires "voxel:" <= id
    ensures id[0] == 'v'
  {
    assert id[0] == "voxel:"[0];
  }

  lemma ServiceableId(value: ObjectInput)
    requires IsServiceable(value.sphereId) && Text.Strip(value.objectId) != ""
    ensures var id := SphereIdOf(value); Text.Trim(id) == id != "" && !("voxel:" <= id)
  {
    var id := SphereIdOf(value);
    if value.sphereId == "" {
      var tail := Text.Strip(value.objectId);
      Text.StrippedIsTrimmed(value.objectId);
      Text.TrimIsTrimmed(tail);
      hide Text.Strip, Text.Trim;
      EndsWith("object:", tail);
      assert id[0] == 'o';
      if "voxel:" <= id {
        VoxelPrefix(id);
      }
    } else {
      Text.TrimmedIsFixed(id);
      hide Text.Trim, Text.IsTrimmed, Text.Strip;
    }
  }

  /** Supplied identifiers that are trimmed and do not start with `voxel:` always serve. */
  lemma ServiceableIdsServe(b: Built, r: SceneRequest)
    requires IsBuiltFor(b, r) && forall value :: value in r.objects ==> IsServiceable(value.sphereId)
    ensures ObjectIdsServe(b)
  {
    hide *;
    forall o | o in b.objects
      ensures IsPlainId(o.sphere.sphereId)
    {
      var value := ObjectIsProper(b, r, o);
      ServiceableId(value);
      PlainIs(o.sphere.sphereId);
    }
    VoxelsAreProper(b, r);
    VoxelsAreApart(b.gripperSpheres, b.baseSpheres);
    BuiltIds(b, r);
    PlainIdsServe(b);
  }

  predicate IsPlainId(id: string) {
    Text.Trim(id) == id && id != "" && !("voxel:" <= id)
  }

  lemma PlainIs(id: string)
    ensures IsPlainId(id) <==> Text.Trim(id) == id && id != "" && !("voxel:" <= id)
  {
  }

  lemma PlainIdsServe(b: Built)
    requires HasDistinctIds(b.objects) && forall o :: o in b.objects ==> IsPlainId(o.sphere.sphereId)
    requires forall s :: s in b.gripperSpheres + b.baseSpheres ==> "voxel:" <= s.sphereId
    ensures ObjectIdsServe(b)
  {
    hide Text.Trim;
    forall x | x in ObjectSpheres(b)
      ensures IsPlainId(x.sphereId)
    {
      var i :| 0 <= i < |b.objects| && b.objects[i].sphere == x;
      assert b.objects[i] in b.objects;
    }
    forall i | 0 <= i < |b.objects|
      ensures ObjectSpheres(b)[i] == b.objects[i].sphere && ObjectSpheres(b)[i] in ObjectSpheres(b)
    {
    }
    hide ObjectSpheres;
  }

  lemma BuiltIds(b: Built, r: SceneRequest)
    requires IsBuiltFor(b, r)
    ensures HasDistinctIds(b.objects)
  {
    hide HasDistinctIds, HasLayers;
  }

  /** The scene never holds more spheres than the request allows. */
  lemma SceneFits(b: Built, r: SceneRequest)
    requires IsBuiltFor(b, r)
    ensures |Wire(b).spheres| <= r.maximumSpheres
  {
    hide NormalizeAll, Retained, HasDistinctIds, CollectAabbs, Revision, IsVoxelLayerAt;
    var points := RemainingPoints(r, b.objects);
    hide RemainingPoints, NearPoints;
    if r.publishUnclaimed {
      var available := r.maximumSpheres - |b.objects|;
      assert |b.gripperSpheres| <= available;
      assert |b.baseSpheres| <= available - |b.gripperSpheres|;
    }
  }
}
