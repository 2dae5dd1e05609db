/** What an accepted box says: where it lies, which way its corners and directions point, and how long it holds. */
module SceneBoxes {
  import opened Common
  import opened RigidTransforms
  import opened SceneTypes
  import opened SceneValidator
  import Text

  /** The validator's tolerance. */
  const TOLERANCE := 0.000000001

  predicate Holds(a: Aabb, p: Vec3) {
    a.minimum.x <= p.x <= a.maximum.x && a.minimum.y <= p.y <= a.maximum.y && a.minimum.z <= p.z <= a.maximum.z
  }

  predicate IsNear(p: Vec3, q: Vec3, tolerance: real) {
    && -tolerance <= p.x - q.x <= tolerance && -tolerance <= p.y - q.y <= tolerance
    && -tolerance <= p.z - q.z <= tolerance
  }

  /** The way an axis text points. */
  function AxisOf(text: string): Option<Vec3> {
    match text
    case "+X" => Some(Vec3(1.0, 0.0, 0.0))
    case "-X" => Some(Vec3(-1.0, 0.0, 0.0))
    case "+Y" => Some(Vec3(0.0, 1.0, 0.0))
    case "-Y" => Some(Vec3(0.0, -1.0, 0.0))
    case "+Z" => Some(Vec3(0.0, 0.0, 1.0))
    case "-Z" => Some(Vec3(0.0, 0.0, -1.0))
    case _ => None
  }

  /** How far the point lies that way. */
  function Along(p: Vec3, axis: Vec3): real {
    p.x * axis.x + p.y * axis.y + p.z * axis.z
  }

  /** The corner's name contains the direction. */
  predicate Names(c: Corner, d: Direction) {
    match d
    case Forward => c.forward
    case Backward => !c.forward
    case Left => !c.right
    case Right => c.right
    case Up => c.up
    case Down => !c.up
  }

  lemma AcceptedHas(a: Aabb, c: Corner)
    requires IsAabb(a)
    ensures HasCorner(a, c) && HasGeometry(a) && HasAxes(a) && HasTimes(a)
  {
    hide HasCorner, HasGeometry, HasAxes, HasTimes, Text.Trim;
    var Corner(right, forward, up) := c;
  }

  /** Each corner of an accepted box is a point of it, and no point of the box lies further in a direction than the
      corners it names, when the direction is read as the box itself explains it. */
  lemma CornersPointTheWay(a: Aabb, c: Corner, d: Direction, p: Vec3)
    requires IsAabb(a) && Holds(a, p) && Names(c, d)
    ensures c in a.corners && d in a.axisSemantics && AxisOf(a.axisSemantics[d]).Some?
    ensures exists q :: Holds(a, q) && IsNear(a.corners[c], q, TOLERANCE)
    ensures var axis := AxisOf(a.axisSemantics[d]).value;
      Along(p, axis) <= Along(a.corners[c], axis) + TOLERANCE
  {
    hide *;
    AcceptedHas(a, c);
    CornerIsNear(a, c);
    AxesAre(a, d);
    FurthestIs(a, c, d, p);
  }

  /** The unit vector of a direction. */
  function UnitOf(d: Direction): Vec3 {
    match d
    case Forward => Vec3(1.0, 0.0, 0.0)
    case Backward => Vec3(-1.0, 0.0, 0.0)
    case Left => Vec3(0.0, 1.0, 0.0)
    case Right => Vec3(0.0, -1.0, 0.0)
    case Up => Vec3(0.0, 0.0, 1.0)
    case Down => Vec3(0.0, 0.0, -1.0)
  }

  lemma AxesAre(a: Aabb, d: Direction)
    requires HasAxes(a)
    ensures d in a.axisSemantics && AxisOf(a.axisSemantics[d]) == Some(UnitOf(d))
  {
  }

  lemma CornerIsNear(a: Aabb, c: Corner)
    requires HasCorner(a, c) && HasGeometry(a)
    ensures c in a.corners && Holds(a, CornerAt(a, c)) && IsNear(a.corners[c], CornerAt(a, c), TOLERANCE)
  {
  }

  lemma FurthestIs(a: Aabb, c: Corner, d: Direction, p: Vec3)
    requires Holds(a, p) && Names(c, d) && c in a.corners && IsNear(a.corners[c], CornerAt(a, c), TOLERANCE)
    ensures Along(p, UnitOf(d)) <= Along(a.corners[c], UnitOf(d)) + TOLERANCE
  {
  }

  predicate IsOpposite(a: Aabb, d: Direction, e: Direction) {
    && d in a.axisSemantics && e in a.axisSemantics
    && var x, y := AxisOf(a.axisSemantics[d]), AxisOf(a.axisSemantics[e]);
       x.Some? && y.Some? && x.value == Negate(y.value)
  }

  lemma AxesOppose(a: Aabb)
    requires HasAxes(a)
    ensures IsOpposite(a, Forward, Backward) && IsOpposite(a, Left, Right) && IsOpposite(a, Up, Down)
  {
  }

  /** Directions whose names are opposite point opposite ways. */
  lemma DirectionsOppose(a: Aabb)
    requires IsAabb(a)
    ensures IsOpposite(a, Forward, Backward) && IsOpposite(a, Left, Right) && IsOpposite(a, Up, Down)
  {
    hide *;
    AcceptedHas(a, Corner(true, true, true));
    AxesOppose(a);
  }

  /** The centre of an accepted box is the one about which it is symmetric, and its size spans its points. */
  lemma CenterAndSizeAre(a: Aabb, p: Vec3)
    requires IsAabb(a) && Holds(a, p)
    ensures exists q :: Holds(a, q) && IsNear(Plus(p, q), Plus(a.center, a.center), 2.0 * TOLERANCE)
    ensures IsNear(Plus(a.minimum, a.size), a.maximum, TOLERANCE)
  {
    AcceptedHas(a, Corner(true, true, true));
    hide IsAabb;
    var q := Vec3(a.minimum.x + a.maximum.x - p.x, a.minimum.y + a.maximum.y - p.y,
                  a.minimum.z + a.maximum.z - p.z);
    assert Holds(a, q);
    assert IsNear(Plus(p, q), Plus(a.center, a.center), 2.0 * TOLERANCE);
  }

  predicate IsPositiveU64(n: int) {
    0 < n < 0x1_0000_0000_0000_0000
  }

  /** An accepted box expires as long after it was observed as it is fresh for, unless 64 bits cannot hold that: then it
      expires at the last moment they can. */
  lemma TimesIff(a: Aabb)
    ensures HasTimes(a) <==>
      && IsPositiveU64(a.observedAtUs) && IsPositiveU64(a.freshnessMs) && IsPositiveU64(a.expiresAtUs)
      && (a.expiresAtUs - a.observedAtUs == 1000 * a.freshnessMs
          || (a.expiresAtUs == 0xFFFF_FFFF_FFFF_FFFF && a.observedAtUs + 1000 * a.freshnessMs > a.expiresAtUs))
  {
  }
}
