/** The rigid-transform arithmetic of the World State Fabric: quaternions in xyzw order, rotation of a
    vector by a quaternion, and inverse and composition of transforms.  Floats are reals, rotations are
    unit quaternions, and `Normalized` says why every normalisation in the source is then the identity. */
module RigidTransforms {

  datatype Vec3 = Vec3(x: real, y: real, z: real)
  datatype Quat = Quat(x: real, y: real, z: real, w: real)

  const ZERO := Vec3(0.0, 0.0, 0.0)
  const ONE := Quat(0.0, 0.0, 0.0, 1.0)

  function Norm2(q: Quat): real {
    q.x * q.x + q.y * q.y + q.z * q.z + q.w * q.w
  }

  type UnitQuat = q: Quat | Norm2(q) == 1.0 witness ONE

  datatype Rigid = Rigid(translation: Vec3, rotation: UnitQuat)

  const IDENTITY := Rigid(ZERO, ONE)

  function Plus(a: Vec3, b: Vec3): Vec3 {
    Vec3(a.x + b.x, a.y + b.y, a.z + b.z)
  }

  function Negate(a: Vec3): Vec3 {
    Vec3(-a.x, -a.y, -a.z)
  }

  function Pure(v: Vec3): Quat {
    Quat(v.x, v.y, v.z, 0.0)
  }

  function Conj(q: Quat): Quat {
    Quat(-q.x, -q.y, -q.z, q.w)
  }

  function Mul(l: Quat, r: Quat): Quat {
    Quat(l.w * r.x + l.x * r.w + l.y * r.z - l.z * r.y,
         l.w * r.y - l.x * r.z + l.y * r.w + l.z * r.x,
         l.w * r.z + l.x * r.y - l.y * r.x + l.z * r.w,
         l.w * r.w - l.x * r.x - l.y * r.y - l.z * r.z)
  }

  function Rotate(q: Quat, v: Vec3): Vec3 {
    var r := Mul(Mul(q, Pure(v)), Conj(q));
    Vec3(r.x, r.y, r.z)
  }

  function Compose(a: Rigid, b: Rigid): Rigid {
    MulNorm(a.rotation, b.rotation);
    Rigid(Plus(a.translation, Rotate(a.rotation, b.translation)), Mul(a.rotation, b.rotation))
  }

  function Inverse(a: Rigid): Rigid {
    var q := Conj(a.rotation);
    Rigid(Rotate(q, Negate(a.translation)), q)
  }

  /** `normalize_quat` divides by the norm `n`, the non-negative root of `Norm2`; below 1e-12 it answers ONE. */
  ghost predicate Normalized(q: Quat, n: real, r: Quat)
  {
    && n >= 0.0 && n * n == Norm2(q)
    && r == if n < 0.000000000001 then ONE else Quat(q.x / n, q.y / n, q.z / n, q.w / n)
  }

  /** What normalisation yields is a unit quaternion, and a unit quaternion is its own normalisation. */
  lemma NormalizationIsIdentityOnUnits(q: Quat, n: real, r: Quat)
    requires Normalized(q, n, r)
    ensures Norm2(r) == 1.0
    ensures Norm2(q) == 1.0 ==> r == q
  {
    if n < 0.000000000001 {
      TinyIsNotUnit(n);
    } else {
      var m := 1.0 / n;
      DividedIs(q, n, m);
      ScaledNorm(q, m);
      Reciprocal(n, m);
      if n * n == 1.0 {
        UnitRoot(n);
      }
    }
  }

  lemma TinyIsNotUnit(n: real)
    requires 0.0 <= n < 0.000000000001
    ensures n * n < 1.0
  {
    AtMost(n, 1.0, n);
  }

  lemma DividedIs(q: Quat, n: real, m: real)
    requires n > 0.0 && m == 1.0 / n
    ensures Quat(q.x / n, q.y / n, q.z / n, q.w / n) == Quat(q.x * m, q.y * m, q.z * m, q.w * m)
  {
    Quotient(q.x, n, m);
    Quotient(q.y, n, m);
    Quotient(q.z, n, m);
    Quotient(q.w, n, m);
  }

  lemma Quotient(a: real, n: real, m: real)
    requires n > 0.0 && m == 1.0 / n
    ensures a / n == a * m
  {
  }

  lemma ScaledNorm(q: Quat, m: real)
    ensures Norm2(Quat(q.x * m, q.y * m, q.z * m, q.w * m)) == Norm2(q) * (m * m)
  {
    Square(q.x, m);
    Square(q.y, m);
    Square(q.z, m);
    Square(q.w, m);
    SpreadSum(m * m, q.x * q.x, q.y * q.y);
    SpreadSum(m * m, q.x * q.x + q.y * q.y, q.z * q.z);
    SpreadSum(m * m, q.x * q.x + q.y * q.y + q.z * q.z, q.w * q.w);
  }

  lemma Reciprocal(n: real, m: real)
    requires n > 0.0 && m == 1.0 / n
    ensures n * n * (m * m) == 1.0
  {
    assert m * n == 1.0;
    assert n * n * (m * m) == (m * n) * (m * n);
  }

  lemma UnitRoot(n: real)
    requires n >= 0.0 && n * n == 1.0
    ensures n == 1.0
  {
    if n < 1.0 {
      AtMost(n, 1.0, n);
    } else {
      AtMost(1.0, n, n);
    }
  }

  lemma AtMost(a: real, b: real, c: real)
    requires a <= b && c >= 0.0
    ensures a * c <= b * c
  {
  }

  lemma Square(a: real, m: real)
    ensures (a * m) * (a * m) == (a * a) * (m * m)
  {
  }

  lemma MulUnit(q: Quat)
    ensures Mul(ONE, q) == q && Mul(q, ONE) == q
  {
  }

  lemma ConjIsInverse(q: UnitQuat)
    ensures Mul(q, Conj(q)) == ONE == Mul(Conj(q), q)
  {
  }

  lemma ConjMul(a: Quat, b: Quat)
    ensures Conj(Mul(a, b)) == Mul(Conj(b), Conj(a))
  {
    hide Mul;
    MulParts(a, b);
    MulParts(Conj(b), Conj(a));
    ConjAxis(a.x, a.y, a.z, a.w, b.x, b.y, b.z, b.w);
    ConjAxis(a.y, a.z, a.x, a.w, b.y, b.z, b.x, b.w);
    ConjAxis(a.z, a.x, a.y, a.w, b.z, b.x, b.y, b.w);
    ConjScalar(a.x, a.y, a.z, a.w, b.x, b.y, b.z, b.w);
  }

  lemma ConjAxis(a0: real, a1: real, a2: real, a3: real, b0: real, b1: real, b2: real, b3: real)
    ensures ImaginaryPart(-b0, -b1, -b2, b3, -a0, -a1, -a2, a3) == -ImaginaryPart(a0, a1, a2, a3, b0, b1, b2, b3)
  {
  }

  lemma ConjScalar(a0: real, a1: real, a2: real, a3: real, b0: real, b1: real, b2: real, b3: real)
    ensures ScalarPart(-b0, -b1, -b2, b3, -a0, -a1, -a2, a3) == ScalarPart(a0, a1, a2, a3, b0, b1, b2, b3)
  {
  }

  // The parts of a product as functions of the eight numbers, the first axis after turning the axes.
  function ImaginaryPart(a0: real, a1: real, a2: real, a3: real, b0: real, b1: real, b2: real, b3: real): real {
    a3 * b0 + a0 * b3 + a1 * b2 - a2 * b1
  }

  function ScalarPart(a0: real, a1: real, a2: real, a3: real, b0: real, b1: real, b2: real, b3: real): real {
    a3 * b3 - a0 * b0 - a1 * b1 - a2 * b2
  }

  lemma MulParts(a: Quat, b: Quat)
    ensures Mul(a, b).x == ImaginaryPart(a.x, a.y, a.z, a.w, b.x, b.y, b.z, b.w)
    ensures Mul(a, b).y == ImaginaryPart(a.y, a.z, a.x, a.w, b.y, b.z, b.x, b.w)
    ensures Mul(a, b).z == ImaginaryPart(a.z, a.x, a.y, a.w, b.z, b.x, b.y, b.w)
    ensures Mul(a, b).w == ScalarPart(a.x, a.y, a.z, a.w, b.x, b.y, b.z, b.w)
  {
    hide ImaginaryPart, ScalarPart;
    Terms(a.x, a.y, a.z, a.w, b.x, b.y, b.z, b.w);
    Terms(a.y, a.z, a.x, a.w, b.y, b.z, b.x, b.w);
    Terms(a.z, a.x, a.y, a.w, b.z, b.x, b.y, b.w);
  }

  // The parts in the orders the product writes them.
  lemma Terms(a0: real, a1: real, a2: real, a3: real, b0: real, b1: real, b2: real, b3: real)
    ensures ImaginaryPart(a0, a1, a2, a3, b0, b1, b2, b3) == a3 * b0 + a0 * b3 + a1 * b2 - a2 * b1
    ensures ImaginaryPart(a0, a1, a2, a3, b0, b1, b2, b3) == a3 * b0 - a2 * b1 + a0 * b3 + a1 * b2
    ensures ImaginaryPart(a0, a1, a2, a3, b0, b1, b2, b3) == a3 * b0 + a1 * b2 - a2 * b1 + a0 * b3
    ensures ScalarPart(a0, a1, a2, a3, b0, b1, b2, b3) == a3 * b3 - a0 * b0 - a1 * b1 - a2 * b2
  {
  }

  lemma Times(u: real, v: real, k: real)
    requires u == v
    ensures u * k == v * k
  {
  }

  // One imaginary axis of a triple product grouped both ways; `d` and `e` are the inner products.
  lemma AxisIdentity(a0: real, a1: real, a2: real, a3: real, b0: real, b1: real, b2: real, b3: real,
                     c0: real, c1: real, c2: real, c3: real,
                     d0: real, d1: real, d2: real, d3: real, e0: real, e1: real, e2: real, e3: real)
    requires d0 == ImaginaryPart(a0, a1, a2, a3, b0, b1, b2, b3) && e0 == ImaginaryPart(b0, b1, b2, b3, c0, c1, c2, c3)
    requires d1 == ImaginaryPart(a1, a2, a0, a3, b1, b2, b0, b3) && e1 == ImaginaryPart(b1, b2, b0, b3, c1, c2, c0, c3)
    requires d2 == ImaginaryPart(a2, a0, a1, a3, b2, b0, b1, b3) && e2 == ImaginaryPart(b2, b0, b1, b3, c2, c0, c1, c3)
    requires d3 == ScalarPart(a0, a1, a2, a3, b0, b1, b2, b3) && e3 == ScalarPart(b0, b1, b2, b3, c0, c1, c2, c3)
    ensures ImaginaryPart(d0, d1, d2, d3, c0, c1, c2, c3) == ImaginaryPart(a0, a1, a2, a3, e0, e1, e2, e3)
  {
    Times(d3, a3 * b3 - a0 * b0 - a1 * b1 - a2 * b2, c0);
    Times(d0, a3 * b0 + a0 * b3 + a1 * b2 - a2 * b1, c3);
    Times(d1, a3 * b1 + a1 * b3 + a2 * b0 - a0 * b2, c2);
    Times(d2, a3 * b2 + a2 * b3 + a0 * b1 - a1 * b0, c1);
    Times(e0, b3 * c0 + b0 * c3 + b1 * c2 - b2 * c1, a3);
    Times(e3, b3 * c3 - b0 * c0 - b1 * c1 - b2 * c2, a0);
    Times(e2, b3 * c2 + b2 * c3 + b0 * c1 - b1 * c0, a1);
    Times(e1, b3 * c1 + b1 * c3 + b2 * c0 - b0 * c2, a2);
  }

  // The same for the scalar part.
  lemma ScalarIdentity(a0: real, a1: real, a2: real, a3: real, b0: real, b1: real, b2: real, b3: real,
                       c0: real, c1: real, c2: real, c3: real,
                       d0: real, d1: real, d2: real, d3: real, e0: real, e1: real, e2: real, e3: real)
    requires d0 == ImaginaryPart(a0, a1, a2, a3, b0, b1, b2, b3) && e0 == ImaginaryPart(b0, b1, b2, b3, c0, c1, c2, c3)
    requires d1 == ImaginaryPart(a1, a2, a0, a3, b1, b2, b0, b3) && e1 == ImaginaryPart(b1, b2, b0, b3, c1, c2, c0, c3)
    requires d2 == ImaginaryPart(a2, a0, a1, a3, b2, b0, b1, b3) && e2 == ImaginaryPart(b2, b0, b1, b3, c2, c0, c1, c3)
    requires d3 == ScalarPart(a0, a1, a2, a3, b0, b1, b2, b3) && e3 == ScalarPart(b0, b1, b2, b3, c0, c1, c2, c3)
    ensures ScalarPart(d0, d1, d2, d3, c0, c1, c2, c3) == ScalarPart(a0, a1, a2, a3, e0, e1, e2, e3)
  {
    Times(d3, a3 * b3 - a0 * b0 - a1 * b1 - a2 * b2, c3);
    Times(d0, a3 * b0 + a0 * b3 + a1 * b2 - a2 * b1, c0);
    Times(d1, a3 * b1 + a1 * b3 + a2 * b0 - a0 * b2, c1);
    Times(d2, a3 * b2 + a2 * b3 + a0 * b1 - a1 * b0, c2);
    Times(e3, b3 * c3 - b0 * c0 - b1 * c1 - b2 * c2, a3);
    Times(e0, b3 * c0 + b0 * c3 + b1 * c2 - b2 * c1, a0);
    Times(e1, b3 * c1 + b1 * c3 + b2 * c0 - b0 * c2, a1);
    Times(e2, b3 * c2 + b2 * c3 + b0 * c1 - b1 * c0, a2);
  }

  // Turning the axes leaves the scalar part alone.
  lemma ScalarTurns(a: Quat, b: Quat)
    ensures ScalarPart(a.x, a.y, a.z, a.w, b.x, b.y, b.z, b.w) == ScalarPart(a.y, a.z, a.x, a.w, b.y, b.z, b.x, b.w)
    ensures ScalarPart(a.x, a.y, a.z, a.w, b.x, b.y, b.z, b.w) == ScalarPart(a.z, a.x, a.y, a.w, b.z, b.x, b.y, b.w)
  {
  }

  lemma AssocX(a: Quat, b: Quat, c: Quat)
    ensures Mul(Mul(a, b), c).x == Mul(a, Mul(b, c)).x
  {
    var d, e := Mul(a, b), Mul(b, c);
    MulParts(a, b);
    MulParts(b, c);
    MulParts(d, c);
    MulParts(a, e);
    hide *;
    AxisIdentity(a.x, a.y, a.z, a.w, b.x, b.y, b.z, b.w, c.x, c.y, c.z, c.w,
                 d.x, d.y, d.z, d.w, e.x, e.y, e.z, e.w);
  }

  lemma AssocY(a: Quat, b: Quat, c: Quat)
    ensures Mul(Mul(a, b), c).y == Mul(a, Mul(b, c)).y
  {
    var d, e := Mul(a, b), Mul(b, c);
    MulParts(a, b);
    MulParts(b, c);
    MulParts(d, c);
    MulParts(a, e);
    ScalarTurns(a, b);
    ScalarTurns(b, c);
    hide *;
    AxisIdentity(a.y, a.z, a.x, a.w, b.y, b.z, b.x, b.w, c.y, c.z, c.x, c.w,
                 d.y, d.z, d.x, d.w, e.y, e.z, e.x, e.w);
  }

  lemma AssocZ(a: Quat, b: Quat, c: Quat)
    ensures Mul(Mul(a, b), c).z == Mul(a, Mul(b, c)).z
  {
    var d, e := Mul(a, b), Mul(b, c);
    MulParts(a, b);
    MulParts(b, c);
    MulParts(d, c);
    MulParts(a, e);
    ScalarTurns(a, b);
    ScalarTurns(b, c);
    hide *;
    AxisIdentity(a.z, a.x, a.y, a.w, b.z, b.x, b.y, b.w, c.z, c.x, c.y, c.w,
                 d.z, d.x, d.y, d.w, e.z, e.x, e.y, e.w);
  }

  lemma AssocW(a: Quat, b: Quat, c: Quat)
    ensures Mul(Mul(a, b), c).w == Mul(a, Mul(b, c)).w
  {
    var d, e := Mul(a, b), Mul(b, c);
    MulParts(a, b);
    MulParts(b, c);
    MulParts(d, c);
    MulParts(a, e);
    hide *;
    ScalarIdentity(a.x, a.y, a.z, a.w, b.x, b.y, b.z, b.w, c.x, c.y, c.z, c.w,
                   d.x, d.y, d.z, d.w, e.x, e.y, e.z, e.w);
  }

  /** Quaternion multiplication is associative. */
  lemma MulAssoc(a: Quat, b: Quat, c: Quat)
    ensures Mul(Mul(a, b), c) == Mul(a, Mul(b, c))
  {
    hide Mul;
    AssocX(a, b, c);
    AssocY(a, b, c);
    AssocZ(a, b, c);
    AssocW(a, b, c);
  }

  function Scalar(k: real): Quat {
    Quat(0.0, 0.0, 0.0, k)
  }

  function Scaled(q: Quat, k: real): Quat {
    Quat(q.x * k, q.y * k, q.z * k, q.w * k)
  }

  lemma MulConj(q: Quat)
    ensures Mul(q, Conj(q)) == Scalar(Norm2(q))
  {
  }

  lemma ScalarMul(k: real, q: Quat)
    ensures Mul(Scalar(k), q) == Scaled(q, k)
  {
  }

  lemma MulZero(q: Quat)
    ensures Mul(q, Scalar(0.0)) == Scalar(0.0) == Mul(Scalar(0.0), q)
  {
  }

  lemma MulScaled(a: Quat, b: Quat, k: real)
    ensures Mul(a, Scaled(b, k)) == Scaled(Mul(a, b), k)
  {
    hide Mul, ImaginaryPart, ScalarPart;
    var c, p := Scaled(b, k), Mul(a, b);
    MulParts(a, b);
    MulParts(a, c);
    ScaleImaginary(a.x, a.y, a.z, a.w, b.x, b.y, b.z, b.w, c.x, c.y, c.z, c.w, p.x, k);
    ScaleImaginary(a.y, a.z, a.x, a.w, b.y, b.z, b.x, b.w, c.y, c.z, c.x, c.w, p.y, k);
    ScaleImaginary(a.z, a.x, a.y, a.w, b.z, b.x, b.y, b.w, c.z, c.x, c.y, c.w, p.z, k);
    ScaleScalar(a.x, a.y, a.z, a.w, b.x, b.y, b.z, b.w, c.x, c.y, c.z, c.w, p.w, k);
  }

  lemma Regroup(u: real, v: real, k: real, w: real)
    requires w == v * k
    ensures u * w == u * v * k
  {
  }

  lemma Spread(u: real, v: real, w: real, t: real, k: real)
    ensures (u + v + w - t) * k == u * k + v * k + w * k - t * k
    ensures (u - v - w - t) * k == u * k - v * k - w * k - t * k
  {
  }

  lemma ScaleImaginary(a0: real, a1: real, a2: real, a3: real, b0: real, b1: real, b2: real, b3: real,
                       c0: real, c1: real, c2: real, c3: real, p: real, k: real)
    requires c0 == b0 * k && c1 == b1 * k && c2 == b2 * k && c3 == b3 * k
    requires p == ImaginaryPart(a0, a1, a2, a3, b0, b1, b2, b3)
    ensures ImaginaryPart(a0, a1, a2, a3, c0, c1, c2, c3) == p * k
  {
    Regroup(a3, b0, k, c0);
    Regroup(a0, b3, k, c3);
    Regroup(a1, b2, k, c2);
    Regroup(a2, b1, k, c1);
    Spread(a3 * b0, a0 * b3, a1 * b2, a2 * b1, k);
    Times(p, a3 * b0 + a0 * b3 + a1 * b2 - a2 * b1, k);
  }

  lemma ScaleScalar(a0: real, a1: real, a2: real, a3: real, b0: real, b1: real, b2: real, b3: real,
                    c0: real, c1: real, c2: real, c3: real, p: real, k: real)
    requires c0 == b0 * k && c1 == b1 * k && c2 == b2 * k && c3 == b3 * k
    requires p == ScalarPart(a0, a1, a2, a3, b0, b1, b2, b3)
    ensures ScalarPart(a0, a1, a2, a3, c0, c1, c2, c3) == p * k
  {
    Regroup(a3, b3, k, c3);
    Regroup(a0, b0, k, c0);
    Regroup(a1, b1, k, c1);
    Regroup(a2, b2, k, c2);
    Spread(a3 * b3, a0 * b0, a1 * b1, a2 * b2, k);
    Times(p, a3 * b3 - a0 * b0 - a1 * b1 - a2 * b2, k);
  }

  /** The quaternion norm is multiplicative, so products of rotations are rotations. */
  lemma MulNorm(a: Quat, b: Quat)
    ensures Norm2(Mul(a, b)) == Norm2(a) * Norm2(b)
  {
    hide Mul, Norm2;
    var p, ca, cb := Mul(a, b), Conj(a), Conj(b);
    calc {
      Scalar(Norm2(p));
      { MulConj(p); ConjMul(a, b); }
      Mul(Mul(a, b), Mul(cb, ca));
      { MulAssoc(a, b, Mul(cb, ca)); MulAssoc(b, cb, ca); MulConj(b); }
      Mul(a, Mul(Scalar(Norm2(b)), ca));
      { ScalarMul(Norm2(b), ca); MulScaled(a, ca, Norm2(b)); MulConj(a); }
      Scaled(Scalar(Norm2(a)), Norm2(b));
    }
  }

  function Add(a: Quat, b: Quat): Quat {
    Quat(a.x + b.x, a.y + b.y, a.z + b.z, a.w + b.w)
  }

  // Both parts of a product are additive in the right factor.
  lemma AddParts(p0: real, p1: real, p2: real, p3: real, a0: real, a1: real, a2: real, a3: real,
                 b0: real, b1: real, b2: real, b3: real)
    ensures ImaginaryPart(p0, p1, p2, p3, a0 + b0, a1 + b1, a2 + b2, a3 + b3)
            == ImaginaryPart(p0, p1, p2, p3, a0, a1, a2, a3) + ImaginaryPart(p0, p1, p2, p3, b0, b1, b2, b3)
    ensures ScalarPart(p0, p1, p2, p3, a0 + b0, a1 + b1, a2 + b2, a3 + b3)
            == ScalarPart(p0, p1, p2, p3, a0, a1, a2, a3) + ScalarPart(p0, p1, p2, p3, b0, b1, b2, b3)
  {
    SpreadSum(p0, a0, b0);
    SpreadSum(p0, a3, b3);
    SpreadSum(p1, a1, b1);
    SpreadSum(p1, a2, b2);
    SpreadSum(p2, a1, b1);
    SpreadSum(p2, a2, b2);
    SpreadSum(p3, a0, b0);
    SpreadSum(p3, a3, b3);
  }

  lemma SpreadSum(p: real, a: real, b: real)
    ensures p * (a + b) == p * a + p * b
  {
  }

  lemma MulAdd(p: Quat, a: Quat, b: Quat)
    ensures Mul(p, Add(a, b)) == Add(Mul(p, a), Mul(p, b))
  {
    hide Mul, ImaginaryPart, ScalarPart;
    MulParts(p, a);
    MulParts(p, b);
    MulParts(p, Add(a, b));
    AddParts(p.x, p.y, p.z, p.w, a.x, a.y, a.z, a.w, b.x, b.y, b.z, b.w);
    AddParts(p.y, p.z, p.x, p.w, a.y, a.z, a.x, a.w, b.y, b.z, b.x, b.w);
    AddParts(p.z, p.x, p.y, p.w, a.z, a.x, a.y, a.w, b.z, b.x, b.y, b.w);
  }

  /** The product is additive on the left as well, since conjugation turns the factors round. */
  lemma AddMul(p: Quat, a: Quat, b: Quat)
    ensures Mul(Add(a, b), p) == Add(Mul(a, p), Mul(b, p))
  {
    hide Mul;
    ConjMul(Add(a, b), p);
    ConjMul(a, p);
    ConjMul(b, p);
    MulAdd(Conj(p), Conj(a), Conj(b));
    assert Conj(Add(a, b)) == Add(Conj(a), Conj(b));
    ConjAdd(Mul(a, p), Mul(b, p));
    ConjTwice(Mul(Add(a, b), p), Add(Mul(a, p), Mul(b, p)));
  }

  lemma ConjAdd(a: Quat, b: Quat)
    ensures Conj(Add(a, b)) == Add(Conj(a), Conj(b))
  {
  }

  lemma ConjTwice(a: Quat, b: Quat)
    requires Conj(a) == Conj(b)
    ensures a == b
  {
  }

  /** q v q* has no scalar part, so dropping it loses nothing. */
  lemma RotateKeepsPure(q: Quat, v: Vec3)
    ensures Mul(Mul(q, Pure(v)), Conj(q)) == Pure(Rotate(q, v))
  {
    hide Mul;
    var p := Mul(Mul(q, Pure(v)), Conj(q));
    calc {
      Conj(p);
      { ConjMul(Mul(q, Pure(v)), Conj(q)); ConjMul(q, Pure(v)); }
      Mul(q, Mul(Conj(Pure(v)), Conj(q)));
      { MulAssoc(q, Conj(Pure(v)), Conj(q)); }
      Mul(Mul(q, Conj(Pure(v))), Conj(q));
    }
    assert Add(Pure(v), Conj(Pure(v))) == Scalar(0.0);
    MulAdd(q, Pure(v), Conj(Pure(v)));
    AddMul(Conj(q), Mul(q, Pure(v)), Mul(q, Conj(Pure(v))));
    MulZero(q);
    MulZero(Conj(q));
    assert Add(p, Conj(p)) == Scalar(0.0);
  }

  /** Rotating by a product is rotating twice. */
  lemma RotateMul(a: Quat, b: Quat, v: Vec3)
    ensures Rotate(Mul(a, b), v) == Rotate(a, Rotate(b, v))
  {
    hide Mul;
    var p, ca, cb := Pure(v), Conj(a), Conj(b);
    calc {
      Mul(Mul(Mul(a, b), p), Conj(Mul(a, b)));
      { ConjMul(a, b); MulAssoc(a, b, p); }
      Mul(Mul(a, Mul(b, p)), Mul(cb, ca));
      { MulAssoc(a, Mul(b, p), Mul(cb, ca)); MulAssoc(Mul(b, p), cb, ca); }
      Mul(a, Mul(Mul(Mul(b, p), cb), ca));
      { RotateKeepsPure(b, v); }
      Mul(a, Mul(Pure(Rotate(b, v)), ca));
      { MulAssoc(a, Pure(Rotate(b, v)), ca); }
      Mul(Mul(a, Pure(Rotate(b, v))), ca);
    }
  }

  lemma RotatePlus(q: Quat, u: Vec3, v: Vec3)
    ensures Rotate(q, Plus(u, v)) == Plus(Rotate(q, u), Rotate(q, v))
  {
    hide Mul;
    assert Pure(Plus(u, v)) == Add(Pure(u), Pure(v));
    MulAdd(q, Pure(u), Pure(v));
    AddMul(Conj(q), Mul(q, Pure(u)), Mul(q, Pure(v)));
  }

  lemma RotateByOne(v: Vec3)
    ensures Rotate(ONE, v) == v
  {
    hide *;
    MulUnit(Pure(v));
    ConjOne();
    RotateFrom(ONE, v, v, Pure(v), ONE);
  }

  lemma ConjOne()
    ensures Conj(ONE) == ONE
  {
  }

  lemma RotateFrom(q: Quat, v: Vec3, r: Vec3, m: Quat, c: Quat)
    requires Mul(q, Pure(v)) == m && Conj(q) == c && Mul(m, c) == Pure(r)
    ensures Rotate(q, v) == r
  {
    hide Mul;
  }

  lemma RotateZero(q: Quat)
    ensures Rotate(q, ZERO) == ZERO
  {
    hide Mul, Rotate;
    RotatePlus(q, ZERO, ZERO);
  }

  lemma RotateNegate(q: Quat, v: Vec3)
    ensures Rotate(q, Negate(v)) == Negate(Rotate(q, v))
  {
    hide Mul, Rotate;
    RotatePlus(q, v, Negate(v));
    RotateZero(q);
    assert Plus(v, Negate(v)) == ZERO;
  }

  function Length2(v: Vec3): real {
    v.x * v.x + v.y * v.y + v.z * v.z
  }

  /** Transforms are rigid: a unit quaternion preserves lengths. */
  lemma RotatePreservesLength(q: UnitQuat, v: Vec3)
    ensures Length2(Rotate(q, v)) == Length2(v)
  {
    hide Mul, Rotate;
    RotateKeepsPure(q, v);
    MulNorm(Mul(q, Pure(v)), Conj(q));
    MulNorm(q, Pure(v));
    assert Norm2(Conj(q)) == 1.0;
  }

  /** Composition is associative. */
  lemma ComposeAssoc(a: Rigid, b: Rigid, c: Rigid)
    ensures Compose(Compose(a, b), c) == Compose(a, Compose(b, c))
  {
    hide Mul, Rotate;
    MulAssoc(a.rotation, b.rotation, c.rotation);
    RotateMul(a.rotation, b.rotation, c.translation);
    RotatePlus(a.rotation, b.translation, Rotate(b.rotation, c.translation));
  }

  lemma ComposeFrom(a: Rigid, b: Rigid, rotated: Vec3, c: Rigid)
    requires Rotate(a.rotation, b.translation) == rotated && Plus(a.translation, rotated) == c.translation
    requires Mul(a.rotation, b.rotation) == c.rotation
    ensures Compose(a, b) == c
  {
    hide Mul, Rotate;
  }

  lemma ComposeIdentity(a: Rigid)
    ensures Compose(IDENTITY, a) == a
    ensures Compose(a, IDENTITY) == a
  {
    hide Mul, Rotate;
    RotateByOne(a.translation);
    RotateZero(a.rotation);
    MulUnit(a.rotation);
    ComposeFrom(IDENTITY, a, a.translation, a);
    ComposeFrom(a, IDENTITY, ZERO, a);
  }

  /** The inverse undoes a transform from both sides. */
  lemma ComposeInverse(a: Rigid)
    ensures Compose(a, Inverse(a)) == IDENTITY
    ensures Compose(Inverse(a), a) == IDENTITY
  {
    ComposeInverseRight(a);
    ComposeInverseLeft(a);
  }

  lemma ComposeInverseRight(a: Rigid)
    ensures Compose(a, Inverse(a)) == IDENTITY
  {
    hide Mul, Rotate;
    var v := Negate(a.translation);
    ConjIsInverse(a.rotation);
    RotateMul(a.rotation, Conj(a.rotation), v);
    RotateByOne(v);
    ComposeFrom(a, Inverse(a), v, IDENTITY);
  }

  lemma ComposeInverseLeft(a: Rigid)
    ensures Compose(Inverse(a), a) == IDENTITY
  {
    hide Mul, Rotate;
    var c := Conj(a.rotation);
    ConjIsInverse(a.rotation);
    RotateNegate(c, a.translation);
    ComposeFrom(Inverse(a), a, Rotate(c, a.translation), IDENTITY);
  }

  /** Inverses are unique and swap under composition. */
  lemma InverseUnique(a: Rigid, b: Rigid)
    requires Compose(a, b) == IDENTITY
    ensures b == Inverse(a) && a == Inverse(b)
  {
    hide *;
    ComposeInverse(a);
    ComposeInverse(b);
    ComposeAssoc(Inverse(a), a, b);
    ComposeAssoc(a, b, Inverse(b));
    ComposeIdentity(b);
    ComposeIdentity(a);
    ComposeIdentity(Inverse(a));
    ComposeIdentity(Inverse(b));
  }

  lemma InverseInverse(a: Rigid)
    ensures Inverse(Inverse(a)) == a
  {
    hide *;
    ComposeInverse(a);
    InverseUnique(Inverse(a), a);
  }

  lemma InverseCompose(a: Rigid, b: Rigid)
    ensures Inverse(Compose(a, b)) == Compose(Inverse(b), Inverse(a))
  {
    hide *;
    var i, j := Inverse(a), Inverse(b);
    calc {
      Compose(Compose(a, b), Compose(j, i));
      { ComposeAssoc(a, b, Compose(j, i)); ComposeAssoc(b, j, i); }
      Compose(a, Compose(Compose(b, j), i));
      { ComposeInverse(b); ComposeIdentity(i); ComposeInverse(a); }
      IDENTITY;
    }
    InverseUnique(Compose(a, b), Compose(j, i));
  }
}
