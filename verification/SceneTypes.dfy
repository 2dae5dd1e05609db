/** The spheres of an arm scene and the geometry both services compute with.  Radii and distances are kept squared. */
module SceneTypes {
  import opened RigidTransforms

  datatype Scope = Gripper | ArmBase | HandAngular

  datatype Kind = KeepOut | Pushable | WorkObject

  datatype Sphere = Sphere(sphereId: string, objectId: string, center: Vec3, radius2: real, kind: Kind, scope: Scope)

  /** A corner of a box by its name: `right_forward_up` and so on. */
  datatype Corner = Corner(right: bool, forward: bool, up: bool)

  datatype Direction = Forward | Backward | Left | Right | Up | Down

  function ScopeText(scope: Scope): string {
    match scope
    case Gripper => "GRIPPER_0P5M"
    case ArmBase => "ARM_BASE_1P2M"
    case HandAngular => "HAND_ANGULAR_4PI"
  }

  function RoiRadius(scope: Scope): real {
    match scope
    case Gripper => 0.5
    case ArmBase => 1.2
    case HandAngular => 1.5
  }

  function MinimumRadius(scope: Scope): real {
    match scope
    case Gripper => 0.02
    case ArmBase => 0.06
    case HandAngular => 0.005
  }

  function Squared(a: real): real {
    a * a
  }

  function Product(a: real, b: real): real {
    a * b
  }

  function Dist2(a: Vec3, b: Vec3): real {
    Squared(a.x - b.x) + Squared(a.y - b.y) + Squared(a.z - b.z)
  }

  lemma Dist2IsNonNegative(a: Vec3, b: Vec3)
    ensures Dist2(a, b) >= 0.0
  {
    SquaredIsNonNegative(a.x - b.x);
    SquaredIsNonNegative(a.y - b.y);
    SquaredIsNonNegative(a.z - b.z);
    hide Squared;
  }

  lemma SquaredIsNonNegative(a: real)
    ensures Squared(a) >= 0.0
  {
  }

  function Max(a: real, b: real): real {
    if a < b then b else a
  }

  // ----- sums and means

  function Sum(s: seq<real>): real {
    if s == [] then 0.0 else Sum(s[..|s| - 1]) + s[|s| - 1]
  }

  function SumOfSquares(s: seq<real>): real {
    if s == [] then 0.0 else SumOfSquares(s[..|s| - 1]) + Squared(s[|s| - 1])
  }

  lemma AddTerm(n: real, q: real, s: real, x: real)
    requires n >= 1.0 && n * q >= s * s
    ensures (n + 1.0) * (q + x * x) >= (s + x) * (s + x)
  {
    var d := s - n * x;
    assert d * d >= 0.0;
    assert d * d == s * s - 2.0 * (n * (s * x)) + (n * n) * (x * x) by {
      DifferenceSquared(s, n, x);
    }
    var gap := q + n * (x * x) - 2.0 * (s * x);
    assert n * gap == n * q + (n * n) * (x * x) - 2.0 * (n * (s * x)) by {
      Distribute(n, q, x, s);
    }
    assert n * gap >= 0.0;
    assert gap >= 0.0 by {
      SignOf(n, gap);
    }
    Expand(n, q, x, s);
  }

  lemma DifferenceSquared(s: real, n: real, x: real)
    ensures (s - n * x) * (s - n * x) == s * s - 2.0 * (n * (s * x)) + (n * n) * (x * x)
  {
    assert (s - n * x) * (s - n * x) == s * s - s * (n * x) - (n * x) * s + (n * x) * (n * x);
    assert s * (n * x) == n * (s * x);
    assert (n * x) * (n * x) == (n * n) * (x * x);
  }

  lemma Distribute(n: real, q: real, x: real, s: real)
    ensures n * (q + n * (x * x) - 2.0 * (s * x)) == n * q + (n * n) * (x * x) - 2.0 * (n * (s * x))
  {
    assert n * (n * (x * x)) == (n * n) * (x * x);
    assert n * (2.0 * (s * x)) == 2.0 * (n * (s * x));
  }

  lemma SignOf(n: real, gap: real)
    requires n >= 1.0 && n * gap >= 0.0
    ensures gap >= 0.0
  {
  }

  lemma Expand(n: real, q: real, x: real, s: real)
    ensures (n + 1.0) * (q + x * x) - (s + x) * (s + x) == n * q - s * s + (q + n * (x * x) - 2.0 * (s * x))
  {
    assert (n + 1.0) * (q + x * x) == n * q + n * (x * x) + q + x * x;
    assert (s + x) * (s + x) == s * s + 2.0 * (s * x) + x * x;
  }

  /** The square of a sum is at most the count times the sum of squares. */
  lemma {:induction false} SumSquared(s: seq<real>)
    ensures Product(|s| as real, SumOfSquares(s)) >= Squared(Sum(s))
  {
    if |s| == 1 {
      assert s[..0] == [];
      assert Sum(s) == 0.0 + s[0];
      assert SumOfSquares(s) == 0.0 + Squared(s[0]);
      assert Sum(s) * Sum(s) == Squared(s[0]);
    } else if s != [] {
      var n := |s| - 1;
      SumSquared(s[..n]);
      AddTerm(n as real, SumOfSquares(s[..n]), Sum(s[..n]), s[n]);
    }
  }

  /** The differences of one coordinate to a fixed one. */
  function Offsets(points: seq<Vec3>, axis: Vec3 -> real, at: real): (r: seq<real>)
    ensures |r| == |points|
  {
    seq(|points|, i requires 0 <= i < |points| => axis(points[i]) - at)
  }

  function Mean(points: seq<Vec3>): Vec3
    requires points != []
  {
    Vec3(MeanOf(points, X), MeanOf(points, Y), MeanOf(points, Z))
  }

  function MeanOf(points: seq<Vec3>, axis: Vec3 -> real): real
    requires points != []
  {
    Sum(Offsets(points, axis, 0.0)) / |points| as real
  }

  const X := (v: Vec3) => v.x
  const Y := (v: Vec3) => v.y
  const Z := (v: Vec3) => v.z

  lemma {:induction false} SumOfOffsets(points: seq<Vec3>, axis: Vec3 -> real, at: real)
    ensures Sum(Offsets(points, axis, at)) == Sum(Offsets(points, axis, 0.0)) - Product(|points| as real, at)
  {
    if points != [] {
      var n := |points| - 1;
      SumOfOffsets(points[..n], axis, at);
      assert Offsets(points, axis, at)[..n] == Offsets(points[..n], axis, at);
      assert Offsets(points, axis, 0.0)[..n] == Offsets(points[..n], axis, 0.0);
      assert |points| as real * at == n as real * at + at;
    }
  }

  /** All squared distances together, axis by axis. */
  function Spread(points: seq<Vec3>, q: Vec3): real {
    SumOfSquares(Offsets(points, X, q.x)) + SumOfSquares(Offsets(points, Y, q.y))
        + SumOfSquares(Offsets(points, Z, q.z))
  }

  lemma {:induction false} SpreadIsBounded(points: seq<Vec3>, q: Vec3, radius2: real)
    requires forall p :: p in points ==> Dist2(p, q) <= radius2
    ensures Spread(points, q) <= Product(|points| as real, radius2)
  {
    if points != [] {
      var n := |points| - 1;
      SpreadIsBounded(points[..n], q, radius2);
      assert Offsets(points, X, q.x)[..n] == Offsets(points[..n], X, q.x);
      assert Offsets(points, Y, q.y)[..n] == Offsets(points[..n], Y, q.y);
      assert Offsets(points, Z, q.z)[..n] == Offsets(points[..n], Z, q.z);
      assert points[n] in points;
      assert |points| as real * radius2 == n as real * radius2 + radius2;
    }
  }

  lemma MeanTimesCount(points: seq<Vec3>, axis: Vec3 -> real)
    requires points != []
    ensures Product(|points| as real, MeanOf(points, axis)) == Sum(Offsets(points, axis, 0.0))
  {
  }

  lemma MeanOffset(points: seq<Vec3>, axis: Vec3 -> real, at: real)
    requires points != []
    ensures Product(|points| as real, Squared(MeanOf(points, axis) - at)) <= SumOfSquares(Offsets(points, axis, at))
  {
    MeanTimesCount(points, axis);
    SumOfOffsets(points, axis, at);
    SumSquared(Offsets(points, axis, at));
    hide *;
    MeanScaled(|points| as real, MeanOf(points, axis), at, Sum(Offsets(points, axis, 0.0)),
               Sum(Offsets(points, axis, at)), SumOfSquares(Offsets(points, axis, at)));
  }

  lemma MeanScaled(n: real, m: real, at: real, total: real, s: real, q: real)
    requires n >= 1.0 && Product(n, m) == total && s == total - Product(n, at) && Product(n, q) >= Squared(s)
    ensures Product(n, Squared(m - at)) <= q
  {
    Spaced(n, m, at);
    Scaled(n, m - at, s, q);
  }

  lemma Spaced(n: real, m: real, at: real)
    ensures n * (m - at) == n * m - n * at
  {
  }

  lemma Scaled(n: real, d: real, s: real, q: real)
    requires n >= 1.0 && n * d == s && n * q >= s * s
    ensures n * (d * d) <= q
  {
    assert s * s == n * (n * (d * d)) by {
      assert (n * d) * (n * d) == n * (n * (d * d));
    }
    SignOf(n, q - n * (d * d));
  }

  lemma ThreeAxes(n: real, a: real, b: real, c: real, x: real, y: real, z: real, r: real)
    requires n >= 1.0 && Product(n, a) <= x && Product(n, b) <= y && Product(n, c) <= z && x + y + z <= Product(n, r)
    ensures a + b + c <= r
  {
    assert n * (r - (a + b + c)) == n * r - n * a - n * b - n * c;
    SignOf(n, r - (a + b + c));
  }

  /** The mean of points of a ball lies in the ball. */
  lemma MeanInBall(points: seq<Vec3>, q: Vec3, radius2: real)
    requires points != [] && forall p :: p in points ==> Dist2(p, q) <= radius2
    ensures Dist2(Mean(points), q) <= radius2
  {
    hide *;
    SpreadIsBounded(points, q, radius2);
    SpreadIs(points, q);
    MeanOffset(points, X, q.x);
    MeanOffset(points, Y, q.y);
    MeanOffset(points, Z, q.z);
    ThreeAxes(|points| as real, Squared(MeanOf(points, X) - q.x), Squared(MeanOf(points, Y) - q.y),
              Squared(MeanOf(points, Z) - q.z), SumOfSquares(Offsets(points, X, q.x)),
              SumOfSquares(Offsets(points, Y, q.y)), SumOfSquares(Offsets(points, Z, q.z)), radius2);
    MeanDistance(points, q);
  }

  lemma SpreadIs(points: seq<Vec3>, q: Vec3)
    ensures Spread(points, q) == SumOfSquares(Offsets(points, X, q.x)) + SumOfSquares(Offsets(points, Y, q.y))
                                 + SumOfSquares(Offsets(points, Z, q.z))
  {
  }

  lemma MeanDistance(points: seq<Vec3>, q: Vec3)
    requires points != []
    ensures Dist2(Mean(points), q) == Squared(MeanOf(points, X) - q.x) + Squared(MeanOf(points, Y) - q.y)
                                      + Squared(MeanOf(points, Z) - q.z)
  {
  }

  // ----- what the mean is

  lemma {:induction false} SquaresAbout(points: seq<Vec3>, axis: Vec3 -> real, at: real)
    ensures SumOfSquares(Offsets(points, axis, at)) ==
            SumOfSquares(Offsets(points, axis, 0.0)) - 2.0 * Product(at, Sum(Offsets(points, axis, 0.0)))
            + Product(|points| as real, Squared(at))
  {
    if points != [] {
      var n := |points| - 1;
      SquaresAbout(points[..n], axis, at);
      assert Offsets(points, axis, at)[..n] == Offsets(points[..n], axis, at);
      assert Offsets(points, axis, 0.0)[..n] == Offsets(points[..n], axis, 0.0);
      SquareAbout(axis(points[n]), at, Sum(Offsets(points[..n], axis, 0.0)), n as real);
    }
  }

  lemma SquareAbout(x: real, at: real, sum: real, n: real)
    ensures Squared(x - at) == Squared(x - 0.0) - 2.0 * (at * x) + Squared(at)
    ensures Product(at, sum + x) == Product(at, sum) + at * x
    ensures Product(n + 1.0, Squared(at)) == Product(n, Squared(at)) + Squared(at)
  {
  }

  lemma MeanCompletes(n: real, m: real, at: real, sum: real)
    requires Product(n, m) == sum
    ensures -2.0 * Product(at, sum) + Product(n, Squared(at)) ==
            -2.0 * Product(m, sum) + Product(n, Squared(m)) + Product(n, Squared(m - at))
  {
    assert Squared(m - at) == Squared(m) - 2.0 * (m * at) + Squared(at);
    assert Product(n, Squared(m - at)) == n * Squared(m) - 2.0 * (n * (m * at)) + n * Squared(at);
    assert at * (n * m) == n * (m * at);
    assert m * (n * m) == n * Squared(m);
  }

  /** Around any other point the squared distances together are larger, by the count times its distance to the mean. */
  lemma MeanIsNearest(points: seq<Vec3>, q: Vec3)
    requires points != []
    ensures Spread(points, q) == Spread(points, Mean(points)) + Product(|points| as real, Dist2(Mean(points), q))
  {
    hide *;
    var m, n := Mean(points), |points| as real;
    MeanIs(points);
    AxisAbout(points, X, q.x);
    AxisAbout(points, Y, q.y);
    AxisAbout(points, Z, q.z);
    SpreadIs(points, q);
    SpreadIs(points, m);
    MeanDistance(points, q);
    Added(n, Squared(m.x - q.x), Squared(m.y - q.y), Squared(m.z - q.z));
  }

  lemma MeanIs(points: seq<Vec3>)
    requires points != []
    ensures Mean(points) == Vec3(MeanOf(points, X), MeanOf(points, Y), MeanOf(points, Z))
  {
  }

  lemma Added(n: real, a: real, b: real, c: real)
    ensures Product(n, a + b + c) == Product(n, a) + Product(n, b) + Product(n, c)
  {
  }

  lemma AxisAbout(points: seq<Vec3>, axis: Vec3 -> real, at: real)
    requires points != []
    ensures SumOfSquares(Offsets(points, axis, at)) == SumOfSquares(Offsets(points, axis, MeanOf(points, axis)))
                                                       + Product(|points| as real, Squared(MeanOf(points, axis) - at))
  {
    hide *;
    var m := MeanOf(points, axis);
    SquaresAbout(points, axis, at);
    SquaresAbout(points, axis, m);
    MeanTimesCount(points, axis);
    MeanCompletes(|points| as real, m, at, Sum(Offsets(points, axis, 0.0)));
  }
}
