/** Covering points with a bounded number of spheres: the voxel edge grows until few enough cells are occupied. */
module Voxel {
  import opened Common
  import opened RigidTransforms
  import opened SceneTypes
  import opened Decimals

  datatype Cell = Cell(x: int, y: int, z: int)

  /** On which side of the ROI centre a point lies, axis by axis; the centre counts as the upper side. */
  datatype Octant = Octant(x: bool, y: bool, z: bool)

  datatype VoxelError = NoRoomForGeometry

  const GROWTH := 1.25

  type Length = r: real | r > 0.0 witness 1.0

  /** An edge length; one that outgrows the largest float becomes infinite. */
  datatype Edge = Finite(length: Length) | Infinite

  // ----- cells

  /** Every offset divided by an infinite edge is zero. */
  function CellOf(p: Vec3, center: Vec3, edge: Edge): Cell {
    match edge
    case Finite(l) => Cell(((p.x - center.x) / l).Floor, ((p.y - center.y) / l).Floor, ((p.z - center.z) / l).Floor)
    case Infinite => Cell(0, 0, 0)
  }

  function OctantOf(p: Vec3, center: Vec3): Octant {
    Octant(p.x >= center.x, p.y >= center.y, p.z >= center.z)
  }

  function Cells(points: seq<Vec3>, center: Vec3, edge: Edge): set<Cell> {
    set p | p in points :: CellOf(p, center, edge)
  }

  function Octants(points: seq<Vec3>, center: Vec3): set<Octant> {
    set p | p in points :: OctantOf(p, center)
  }

  // ----- `np.unique` of the cell indices: sorted rows

  predicate CellLess(a: Cell, b: Cell) {
    a.x < b.x || (a.x == b.x && (a.y < b.y || (a.y == b.y && a.z < b.z)))
  }

  ghost predicate SortedCells(s: seq<Cell>) {
    forall i, j :: 0 <= i < j < |s| ==> CellLess(s[i], s[j])
  }

  function InsertCell(s: seq<Cell>, c: Cell): seq<Cell> {
    if s == [] || CellLess(c, s[0]) then [c] + s
    else if c == s[0] then s
    else [s[0]] + InsertCell(s[1..], c)
  }

  function UniqueCells(points: seq<Vec3>, center: Vec3, edge: Edge): seq<Cell> {
    if points == [] then []
    else
      var n := |points| - 1;
      InsertCell(UniqueCells(points[..n], center, edge), CellOf(points[n], center, edge))
  }

  lemma {:induction false} InsertCellSorts(s: seq<Cell>, c: Cell)
    requires SortedCells(s)
    ensures SortedCells(InsertCell(s, c))
    ensures forall d :: d in InsertCell(s, c) <==> d in s || d == c
  {
    if s != [] && !CellLess(c, s[0]) && c != s[0] {
      InsertCellSorts(s[1..], c);
      assert s == [s[0]] + s[1..];
      var rest := InsertCell(s[1..], c);
      assert InsertCell(s, c) == [s[0]] + rest;
      forall j | 0 <= j < |rest|
        ensures CellLess(s[0], rest[j])
      {
        assert rest[j] in rest;
      }
    }
  }

  lemma {:induction false} UniqueCellsAre(points: seq<Vec3>, center: Vec3, edge: Edge)
    ensures var u := UniqueCells(points, center, edge);
      && SortedCells(u) && (forall c :: c in u <==> c in Cells(points, center, edge))
      && |u| == |Cells(points, center, edge)|
  {
    if points != [] {
      var n := |points| - 1;
      UniqueCellsAre(points[..n], center, edge);
      hide CellOf;
      InsertCellSorts(UniqueCells(points[..n], center, edge), CellOf(points[n], center, edge));
      assert points == points[..n] + [points[n]];
    }
    SortedCount(UniqueCells(points, center, edge), Cells(points, center, edge));
  }

  lemma {:induction false} SortedCount(s: seq<Cell>, cells: set<Cell>)
    requires SortedCells(s) && forall c :: c in s <==> c in cells
    ensures |s| == |cells|
  {
    if s == [] {
      assert cells == {};
    } else {
      var n := |s| - 1;
      forall c
        ensures c in s[..n] <==> c in cells - {s[n]}
      {
        assert s == s[..n] + [s[n]];
      }
      SortedCount(s[..n], cells - {s[n]});
      assert s[n] in cells;
    }
  }

  // ----- how many cells are occupied

  /** A function's values on a set are no more than the set's elements. */
  lemma {:induction false} ImageIsNoLarger<A, B>(s: set<A>, image: set<B>, f: A -> B)
    requires forall b :: b in image ==> exists a :: a in s && f(a) == b
    ensures |image| <= |s|
  {
    if image != {} {
      var b :| b in image;
      var a :| a in s && f(a) == b;
      ImageIsNoLarger(s - {a}, image - {b}, f);
    }
  }

  lemma DivideBelow(d: real, e: real)
    requires e > 0.0
    ensures d < e ==> d / e < 1.0
    ensures d >= 0.0 <==> d / e >= 0.0
    ensures d >= -e ==> d / e >= -1.0
  {
    var r := d / e;
    assert r * e == d;
    if r >= 1.0 {
      assert r * e >= e;
    }
    if r < -1.0 {
      assert (-r) * e > e;
    }
  }

  lemma SideOfCell(d: real, edge: real)
    requires edge > 0.0
    ensures (d / edge).Floor >= 0 <==> d >= 0.0
    ensures -edge <= d < edge ==> (d / edge).Floor == if d >= 0.0 then 0 else -1
  {
    DivideBelow(d, edge);
  }

  /** A cell holds the points from its index times the edge up to, and without, the next. */
  lemma CellIff(p: Vec3, center: Vec3, l: Length, c: Cell)
    ensures CellOf(p, center, Finite(l)) == c <==>
      && Product(c.x as real, l) <= p.x - center.x < Product(c.x as real + 1.0, l)
      && Product(c.y as real, l) <= p.y - center.y < Product(c.y as real + 1.0, l)
      && Product(c.z as real, l) <= p.z - center.z < Product(c.z as real + 1.0, l)
  {
    hide Product;
    FloorIff(p.x - center.x, l, c.x);
    FloorIff(p.y - center.y, l, c.y);
    FloorIff(p.z - center.z, l, c.z);
  }

  lemma FloorIff(d: real, l: Length, k: int)
    ensures (d / l).Floor == k <==> Product(k as real, l) <= d < Product(k as real + 1.0, l)
  {
    hide Product;
    var r := d / l;
    Quotient(d, l);
    OrderIff(k as real, r, l);
    OrderIff(k as real + 1.0, r, l);
  }

  lemma Quotient(d: real, l: Length)
    ensures Product(d / l, l) == d
  {
  }

  lemma OrderIff(a: real, b: real, l: Length)
    ensures Product(a, l) <= Product(b, l) <==> a <= b
  {
    assert (b - a) * l == b * l - a * l;
  }

  function OctantOfCell(c: Cell): Octant {
    Octant(c.x >= 0, c.y >= 0, c.z >= 0)
  }

  function CellOfOctant(o: Octant): Cell {
    Cell(if o.x then 0 else -1, if o.y then 0 else -1, if o.z then 0 else -1)
  }

  lemma OctantIsOfCell(p: Vec3, center: Vec3, l: Length)
    ensures OctantOfCell(CellOf(p, center, Finite(l))) == OctantOf(p, center)
  {
    SideOfCell(p.x - center.x, l);
    SideOfCell(p.y - center.y, l);
    SideOfCell(p.z - center.z, l);
  }

  /** However long the edge, while it is finite at least one cell per occupied octant remains. */
  lemma AtLeastOctants(points: seq<Vec3>, center: Vec3, l: Length)
    ensures |Octants(points, center)| <= |Cells(points, center, Finite(l))|
  {
    hide CellOf, OctantOf, OctantOfCell;
    var cells := Cells(points, center, Finite(l));
    forall o | o in Octants(points, center)
      ensures exists c :: c in cells && OctantOfCell(c) == o
    {
      var p :| p in points && OctantOf(p, center) == o;
      OctantIsOfCell(p, center, l);
      assert CellOf(p, center, Finite(l)) in cells;
    }
    ImageIsNoLarger(cells, Octants(points, center), OctantOfCell);
  }

  predicate IsWithin(p: Vec3, center: Vec3, reach: real) {
    -reach <= p.x - center.x < reach && -reach <= p.y - center.y < reach && -reach <= p.z - center.z < reach
  }

  /** Every coordinate is less than `reach` away from the centre. */
  ghost predicate Reaches(points: seq<Vec3>, center: Vec3, reach: real) {
    forall p :: p in points ==> IsWithin(p, center, reach)
  }

  lemma CellIsOfOctant(p: Vec3, center: Vec3, l: Length)
    requires IsWithin(p, center, l)
    ensures CellOf(p, center, Finite(l)) == CellOfOctant(OctantOf(p, center))
  {
    SideOfCell(p.x - center.x, l);
    SideOfCell(p.y - center.y, l);
    SideOfCell(p.z - center.z, l);
  }

  /** Once the edge is as long as the points reach, there is exactly one cell per occupied octant. */
  lemma ExactlyOctants(points: seq<Vec3>, center: Vec3, l: Length)
    requires Reaches(points, center, l)
    ensures |Cells(points, center, Finite(l))| == |Octants(points, center)|
  {
    AtLeastOctants(points, center, l);
    hide CellOf, OctantOf, CellOfOctant, IsWithin;
    var octants := Octants(points, center);
    forall c | c in Cells(points, center, Finite(l))
      ensures exists o :: o in octants && CellOfOctant(o) == c
    {
      var p :| p in points && CellOf(p, center, Finite(l)) == c;
      CellIsOfOctant(p, center, l);
      assert OctantOf(p, center) in octants;
    }
    ImageIsNoLarger(octants, Cells(points, center, Finite(l)), CellOfOctant);
  }

  /** An infinite edge leaves one cell. */
  lemma OneCell(points: seq<Vec3>, center: Vec3)
    requires points != []
    ensures |UniqueCells(points, center, Infinite)| == 1
  {
    UniqueCellsAre(points, center, Infinite);
    assert points[0] in points;
    assert Cells(points, center, Infinite) == {Cell(0, 0, 0)};
  }

  lemma EightOctants(points: seq<Vec3>, center: Vec3)
    ensures |Octants(points, center)| <= 8
  {
    var all := {Octant(true, true, true), Octant(true, true, false),
                Octant(true, false, true), Octant(true, false, false),
                Octant(false, true, true), Octant(false, true, false),
                Octant(false, false, true), Octant(false, false, false)};
    assert |all| == 8;
    SubsetCount(Octants(points, center), all);
  }

  lemma SubsetCount<T>(a: set<T>, b: set<T>)
    requires a <= b
    ensures |a| <= |b|
  {
    assert |b| == |a| + |b - a|;
  }

  // ----- the growing edge

  /** `edge *= 1.25`; `largest` is the largest finite float. */
  function Grown(edge: Edge, largest: Length): Edge {
    if edge.Finite? && edge.length * GROWTH <= largest then Finite(edge.length * GROWTH) else Infinite
  }

  function EdgeAfter(first: Length, n: nat, largest: Length): Edge {
    if n == 0 then Finite(first) else Grown(EdgeAfter(first, n - 1, largest), largest)
  }

  /** The length after `n` steps, were there no largest one. */
  function LengthAfter(first: Length, n: nat): Length {
    if n == 0 then first else LengthAfter(first, n - 1) * GROWTH
  }

  lemma {:induction false} EdgeAfterIs(first: Length, n: nat, largest: Length)
    ensures EdgeAfter(first, n, largest) ==
            if n == 0 || LengthAfter(first, n) <= largest then Finite(LengthAfter(first, n)) else Infinite
  {
    if n > 0 {
      EdgeAfterIs(first, n - 1, largest);
    }
  }

  lemma {:induction false} LengthGrows(first: Length, n: nat)
    ensures LengthAfter(first, n) >= first + first * n as real / 4.0
  {
    if n > 0 {
      LengthGrows(first, n - 1);
      Quarter(LengthAfter(first, n - 1), first, n - 1);
    }
  }

  lemma Quarter(l: real, first: Length, n: nat)
    requires l >= first + first * n as real / 4.0
    ensures l * GROWTH >= first + first * (n + 1) as real / 4.0
  {
    assert first * n as real >= 0.0;
    assert first * (n + 1) as real == first * n as real + first;
  }

  /** The edge outgrows every bound. */
  lemma SomeSteps(first: Length, bound: Length) returns (n: nat)
    ensures n > 0 && LengthAfter(first, n) > bound
  {
    n := (4.0 * bound / first).Floor + 1;
    LengthGrows(first, n);
    DivideBelow(4.0 * bound, first);
    Cleared(first, bound, n as real);
  }

  lemma Cleared(first: Length, bound: Length, n: real)
    requires n >= 4.0 * bound / first
    ensures first * n >= 4.0 * bound
  {
    assert first * (4.0 * bound / first) == 4.0 * bound;
    assert first * (n - 4.0 * bound / first) >= 0.0;
  }

  /** With more occupied octants than spheres allowed no finite edge is long enough. */
  lemma NeverFits(points: seq<Vec3>, center: Vec3, l: Length, budget: int)
    requires |Octants(points, center)| > budget
    ensures |UniqueCells(points, center, Finite(l))| > budget
  {
    UniqueCellsAre(points, center, Finite(l));
    AtLeastOctants(points, center, l);
  }

  // ----- the spheres

  function PointsIn(points: seq<Vec3>, center: Vec3, edge: Edge, c: Cell): (r: seq<Vec3>) {
    if points == [] then []
    else
      var n := |points| - 1;
      PointsIn(points[..n], center, edge, c) + if CellOf(points[n], center, edge) == c then [points[n]] else []
  }

  function LargestDist2(points: seq<Vec3>, q: Vec3): real {
    if points == [] then 0.0
    else Max(LargestDist2(points[..|points| - 1], q), Dist2(points[|points| - 1], q))
  }

  function CellText(c: Cell): string {
    IntText(c.x) + ":" + IntText(c.y) + ":" + IntText(c.z)
  }

  /** The sphere of a cell: around the mean of its points, just large enough for them and the ROI's minimum. */
  function SphereOf(points: seq<Vec3>, center: Vec3, edge: Edge, c: Cell, scope: Scope, minimum: real,
                    kind: Kind): Sphere
    requires PointsIn(points, center, edge, c) != []
  {
    var own := PointsIn(points, center, edge, c);
    Sphere("voxel:" + ScopeText(scope) + ":" + CellText(c), "obstacle:" + ScopeText(scope) + ":" + CellText(c),
           Mean(own), Max(Squared(minimum), LargestDist2(own, Mean(own))), kind, scope)
  }

  lemma {:induction false} PointsInAre(points: seq<Vec3>, center: Vec3, edge: Edge, c: Cell)
    ensures forall p :: p in PointsIn(points, center, edge, c) <==> p in points && CellOf(p, center, edge) == c
  {
    if points != [] {
      var n := |points| - 1;
      hide CellOf;
      PointsInAre(points[..n], center, edge, c);
      assert points == points[..n] + [points[n]];
    }
  }

  lemma OccupiedHasPoints(points: seq<Vec3>, center: Vec3, edge: Edge, c: Cell)
    requires c in Cells(points, center, edge)
    ensures PointsIn(points, center, edge, c) != []
  {
    hide CellOf;
    PointsInAre(points, center, edge, c);
    var p :| p in points && CellOf(p, center, edge) == c;
    assert p in PointsIn(points, center, edge, c);
  }

  lemma {:induction false} LargestDist2Is(points: seq<Vec3>, q: Vec3)
    ensures forall p :: p in points ==> Dist2(p, q) <= LargestDist2(points, q)
    ensures LargestDist2(points, q) == 0.0 || exists p :: p in points && LargestDist2(points, q) == Dist2(p, q)
  {
    hide Dist2;
    if points != [] {
      var n := |points| - 1;
      LargestDist2Is(points[..n], q);
      assert points == points[..n] + [points[n]];
      if LargestDist2(points, q) == Dist2(points[n], q) {
        assert points[n] in points;
      }
    }
  }

  /** The spheres are those of the occupied cells in order, one each. */
  ghost predicate AreCellSpheres(spheres: seq<Sphere>, cells: seq<Cell>, points: seq<Vec3>, center: Vec3, edge: Edge,
                                 scope: Scope, minimum: real, kind: Kind)
  {
    && |spheres| == |cells|
    && forall i :: 0 <= i < |cells| ==>
         && PointsIn(points, center, edge, cells[i]) != []
         && spheres[i] == SphereOf(points, center, edge, cells[i], scope, minimum, kind)
  }

  predicate TooFine(points: seq<Vec3>, center: Vec3, first: Length, budget: int, largest: Length, m: nat) {
    |UniqueCells(points, center, EdgeAfter(first, m, largest))| > budget
  }

  /** The edge is the first of the growing edges with few enough cells. */
  ghost predicate IsFirstFit(points: seq<Vec3>, center: Vec3, first: Length, budget: int, largest: Length, edge: Edge,
                             n: nat)
  {
    && edge == EdgeAfter(first, n, largest) && |UniqueCells(points, center, edge)| <= budget
    && forall m :: 0 <= m < n ==> TooFine(points, center, first, budget, largest, m)
  }

  /** `_voxel_spheres` */
  method VoxelSpheres(points: seq<Vec3>, center: Vec3, scope: Scope, minimum: Length, budget: int, kind: Kind,
                      largest: Length)
    returns (result: Result<seq<Sphere>, VoxelError>, edge: Edge)
    ensures result.Err? <==> points != [] && budget <= 0
    ensures points == [] ==> result == Ok([]) && edge == Finite(minimum * 2.0)
    ensures result.Ok? && points != [] ==>
      && |result.value| <= budget
      && AreCellSpheres(result.value, UniqueCells(points, center, edge), points, center, edge, scope, minimum, kind)
      && HasFirstFit(points, center, minimum, budget, largest, edge)
  {
    edge := Finite(minimum * 2.0);
    if points == [] {
      return Ok([]), edge;
    }
    if budget <= 0 {
      return Err(NoRoomForGeometry), edge;
    }
    edge := Coarsen(points, center, minimum * 2.0, budget, largest);
    hide *;
    var spheres := BuildSpheres(points, center, scope, minimum, kind, edge);
    return Ok(spheres), edge;
  }

  ghost predicate HasFirstFit(points: seq<Vec3>, center: Vec3, minimum: Length, budget: int, largest: Length,
                              edge: Edge)
  {
    var first := minimum * 2.0;
    exists n :: IsFirstFit(points, center, first, budget, largest, edge, n)
  }

  // The sphere of each occupied cell, in order.
  method BuildSpheres(points: seq<Vec3>, center: Vec3, scope: Scope, minimum: real, kind: Kind, edge: Edge)
    returns (spheres: seq<Sphere>)
    ensures |spheres| == |UniqueCells(points, center, edge)|
    ensures AreCellSpheres(spheres, UniqueCells(points, center, edge), points, center, edge, scope, minimum, kind)
  {
    hide UniqueCells, Cells, SphereOf, PointsIn, AreCellSpheres;
    var unique := UniqueCells(points, center, edge);
    spheres := [];
    UniqueCellsAre(points, center, edge);
    NoSpheres(points, center, edge, scope, minimum, kind);
    for g := 0 to |unique|
      invariant |spheres| == g
      invariant AreCellSpheres(spheres, unique[..g], points, center, edge, scope, minimum, kind)
    {
      assert unique[g] in unique;
      OccupiedHasPoints(points, center, edge, unique[g]);
      assert unique[..g + 1] == unique[..g] + [unique[g]];
      OneMoreSphere(spheres, unique[..g], unique[g], points, center, edge, scope, minimum, kind);
      spheres := spheres + [SphereOf(points, center, edge, unique[g], scope, minimum, kind)];
    }
    assert unique[..|unique|] == unique;
  }

  lemma NoSpheres(points: seq<Vec3>, center: Vec3, edge: Edge, scope: Scope, minimum: real, kind: Kind)
    ensures AreCellSpheres([], [], points, center, edge, scope, minimum, kind)
  {
  }

  lemma OneMoreSphere(spheres: seq<Sphere>, cells: seq<Cell>, c: Cell, points: seq<Vec3>, center: Vec3, edge: Edge,
                      scope: Scope, minimum: real, kind: Kind)
    requires AreCellSpheres(spheres, cells, points, center, edge, scope, minimum, kind)
    requires PointsIn(points, center, edge, c) != []
    ensures AreCellSpheres(spheres + [SphereOf(points, center, edge, c, scope, minimum, kind)], cells + [c],
                           points, center, edge, scope, minimum, kind)
  {
    hide SphereOf, PointsIn;
  }

  // The loop of `_voxel_spheres`.
  method Coarsen(points: seq<Vec3>, center: Vec3, first: Length, budget: int, largest: Length) returns (edge: Edge)
    requires points != [] && budget > 0
    ensures |UniqueCells(points, center, edge)| <= budget
    ensures exists n :: IsFirstFit(points, center, first, budget, largest, edge, n)
  {
    OneCell(points, center);
    ghost var enough := SomeSteps(first, largest);
    EdgeAfterIs(first, enough, largest);
    hide UniqueCells, LengthAfter;
    edge := Finite(first);
    ghost var n: nat := 0;
    while |UniqueCells(points, center, edge)| > budget
      invariant n <= enough && edge == EdgeAfter(first, n, largest)
      invariant forall m :: 0 <= m < n ==> TooFine(points, center, first, budget, largest, m)
      decreases enough - n
    {
      assert TooFine(points, center, first, budget, largest, n);
      edge := Grown(edge, largest);
      n := n + 1;
    }
    assert IsFirstFit(points, center, first, budget, largest, edge, n);
  }

  lemma LongEnough(points: seq<Vec3>, center: Vec3, reach: real, l: Length)
    requires l >= reach && Reaches(points, center, reach)
    ensures |UniqueCells(points, center, Finite(l))| == |Octants(points, center)|
  {
    forall p | p in points
      ensures IsWithin(p, center, l)
    {
      assert IsWithin(p, center, reach);
    }
    hide UniqueCells, Cells, Octants;
    ExactlyOctants(points, center, l);
    UniqueCellsAre(points, center, Finite(l));
  }

  /** The last finite edge is within one step of the largest length. */
  lemma {:induction false} LastFinite(first: Length, largest: Length, n: nat) returns (m: nat)
    requires first <= largest && LengthAfter(first, n) > largest
    ensures LengthAfter(first, m) <= largest < LengthAfter(first, m) * GROWTH
  {
    if LengthAfter(first, n - 1) <= largest {
      m := n - 1;
    } else {
      m := LastFinite(first, largest, n - 1);
    }
  }

  lemma {:induction false} LengthMonotone(first: Length, m: nat, n: nat)
    requires m <= n
    ensures LengthAfter(first, m) <= LengthAfter(first, n)
  {
    if m < n {
      LengthMonotone(first, m, n - 1);
    }
  }

  /** The loop ends at a finite edge exactly when at most the budget of octants around the ROI centre is occupied;
      otherwise it ends at the infinite one, with a single cell.  The points lie well inside the range of floats. */
  lemma FiniteIff(points: seq<Vec3>, center: Vec3, first: Length, budget: int, largest: Length, edge: Edge, n: nat)
    requires points != [] && first <= largest && Reaches(points, center, largest / GROWTH)
    requires IsFirstFit(points, center, first, budget, largest, edge, n)
    ensures edge.Finite? <==> |Octants(points, center)| <= budget
    ensures edge.Infinite? ==> |UniqueCells(points, center, edge)| == 1
  {
    hide UniqueCells, Octants, Reaches;
    OneCell(points, center);
    if |Octants(points, center)| <= budget {
      var far := SomeSteps(first, largest);
      var m := LastFinite(first, largest, far);
      LongEnough(points, center, largest / GROWTH, LengthAfter(first, m));
      EdgeAfterIs(first, m, largest);
      assert !TooFine(points, center, first, budget, largest, m);
      LengthMonotone(first, n, m);
      EdgeAfterIs(first, n, largest);
    } else if edge.Finite? {
      NeverFits(points, center, edge.length, budget);
    }
  }

  function Power(base: real, n: nat): real {
    if n == 0 then 1.0 else Power(base, n - 1) * base
  }

  lemma {:induction false} LengthIs(first: Length, n: nat)
    ensures Product(LengthAfter(first, n), Power(4.0, n)) == Product(first, Power(5.0, n))
  {
    if n > 0 {
      LengthIs(first, n - 1);
      FiveFourths(LengthAfter(first, n - 1), Power(4.0, n - 1), first, Power(5.0, n - 1));
    }
  }

  lemma FiveFourths(l: real, a: real, first: real, b: real)
    requires Product(l, a) == Product(first, b)
    ensures Product(l * 1.25, a * 4.0) == Product(first, b * 5.0)
  {
    assert (l * 1.25) * (a * 4.0) == (l * a) * 5.0;
    assert first * (b * 5.0) == (first * b) * 5.0;
  }

  /** A finite edge chosen is twice the minimum radius times a power of five fourths; and if it is longer than that, an
      edge of four fifths of its length would leave more cells than the budget. */
  lemma EdgeIsNoLonger(points: seq<Vec3>, center: Vec3, minimum: Length, budget: int, largest: Length, edge: Edge)
    requires HasFirstFit(points, center, minimum, budget, largest, edge) && edge.Finite?
    ensures |Cells(points, center, edge)| <= budget
    ensures edge.length == minimum * 2.0 || |Cells(points, center, Finite(edge.length * 0.8))| > budget
    ensures exists n :: Product(edge.length, Power(4.0, n)) == Product(minimum * 2.0, Power(5.0, n))
  {
    hide Cells, UniqueCells, Product, Power;
    var first := minimum * 2.0;
    var n: nat :| IsFirstFit(points, center, first, budget, largest, edge, n);
    EdgeAfterIs(first, n, largest);
    UniqueCellsAre(points, center, edge);
    LengthIs(first, n);
    if n > 0 {
      assert TooFine(points, center, first, budget, largest, n - 1);
      EdgeAfterIs(first, n - 1, largest);
      assert edge.length * 0.8 == LengthAfter(first, n - 1);
      UniqueCellsAre(points, center, Finite(edge.length * 0.8));
    }
  }

  // ----- what the spheres do

  /** Every point lies in the sphere of its own cell. */
  lemma EveryPointIsCovered(spheres: seq<Sphere>, points: seq<Vec3>, center: Vec3, edge: Edge, scope: Scope,
                            minimum: real, kind: Kind, p: Vec3)
    requires p in points
    requires AreCellSpheres(spheres, UniqueCells(points, center, edge), points, center, edge, scope, minimum, kind)
    ensures exists i :: 0 <= i < |spheres| && UniqueCells(points, center, edge)[i] == CellOf(p, center, edge)
                        && Dist2(p, spheres[i].center) <= spheres[i].radius2
  {
    var c := CellOf(p, center, edge);
    UniqueCellsAre(points, center, edge);
    hide CellOf, Dist2, Mean;
    assert c in Cells(points, center, edge);
    var i :| 0 <= i < |spheres| && UniqueCells(points, center, edge)[i] == c;
    hide UniqueCells;
    PointsInAre(points, center, edge, c);
    var own := PointsIn(points, center, edge, c);
    assert p in own;
    LargestDist2Is(own, Mean(own));
    hide PointsIn, LargestDist2;
    assert Dist2(p, spheres[i].center) <= spheres[i].radius2;
  }

  /** A sphere is no larger than it must be: it has the minimum radius, or touches a point of its cell. */
  lemma SphereIsTight(points: seq<Vec3>, center: Vec3, edge: Edge, c: Cell, scope: Scope, minimum: real, kind: Kind)
    requires PointsIn(points, center, edge, c) != []
    ensures var s := SphereOf(points, center, edge, c, scope, minimum, kind);
      && s.radius2 >= Squared(minimum)
      && (s.radius2 == Squared(minimum)
          || exists p :: p in points && CellOf(p, center, edge) == c && s.radius2 == Dist2(p, s.center))
  {
    var own := PointsIn(points, center, edge, c);
    PointsInAre(points, center, edge, c);
    LargestDist2Is(own, Mean(own));
    hide CellOf, PointsIn, LargestDist2, Dist2, Mean;
    assert Squared(minimum) >= 0.0;
  }

  /** When all points lie in a ball, so do the centres of the spheres. */
  lemma CentersStayInside(points: seq<Vec3>, center: Vec3, edge: Edge, c: Cell, scope: Scope, minimum: real, kind: Kind,
                          q: Vec3, radius2: real)
    requires PointsIn(points, center, edge, c) != []
    requires forall p :: p in points ==> Dist2(p, q) <= radius2
    ensures Dist2(SphereOf(points, center, edge, c, scope, minimum, kind).center, q) <= radius2
  {
    PointsInAre(points, center, edge, c);
    hide CellOf, PointsIn, Dist2, Mean;
    MeanInBall(PointsIn(points, center, edge, c), q, radius2);
  }

  // ----- identifiers

  function ColonAt(s: string): nat {
    if s == "" || s[0] == ':' then 0 else 1 + ColonAt(s[1..])
  }

  lemma {:induction false} ColonBehind(a: string, s: string)
    requires ':' !in a
    ensures ColonAt(a + ":" + s) == |a|
  {
    if a == "" {
      assert (a + ":" + s)[0] == ':';
    } else {
      assert (a + ":" + s)[0] == a[0];
      assert (a + ":" + s)[1..] == a[1..] + ":" + s;
      ColonBehind(a[1..], s);
    }
  }

  lemma SplitAtColon(a: string, b: string, s: string, t: string)
    requires ':' !in a && ':' !in b && a + ":" + s == b + ":" + t
    ensures a == b && s == t
  {
    ColonBehind(a, s);
    ColonBehind(b, t);
    var x, y := a + ":" + s, b + ":" + t;
    assert x[..|a|] == a && y[..|b|] == b;
    assert x[|a| + 1..] == s && y[|b| + 1..] == t;
  }

  lemma NoColon(n: int)
    ensures ':' !in IntText(n)
  {
    DecimalDenotes(if n < 0 then -n else n);
    assert !IsDigit(':');
  }

  /** Different cells have different names. */
  lemma CellTextInjective(a: Cell, b: Cell)
    requires CellText(a) == CellText(b)
    ensures a == b
  {
    NoColon(a.x);
    NoColon(a.y);
    NoColon(b.x);
    NoColon(b.y);
    hide IntText;
    assert CellText(a) == IntText(a.x) + ":" + (IntText(a.y) + ":" + IntText(a.z));
    assert CellText(b) == IntText(b.x) + ":" + (IntText(b.y) + ":" + IntText(b.z));
    SplitAtColon(IntText(a.x), IntText(b.x), IntText(a.y) + ":" + IntText(a.z), IntText(b.y) + ":" + IntText(b.z));
    SplitAtColon(IntText(a.y), IntText(b.y), IntText(a.z), IntText(b.z));
    IntTextInjective(a.x, b.x);
    IntTextInjective(a.y, b.y);
    IntTextInjective(a.z, b.z);
  }
}
