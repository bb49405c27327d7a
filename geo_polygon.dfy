// Polygons of the 2D geometry kernel: the shoelace signed area and the
// counter-clockwise normalisation of `make`, construction from a closed chain
// of lines, area, centroid, perimeter, the even-odd point test, orientation,
// the bounding box and the rigid transforms.  Sums over the edges of the ring
// are specified once, by `Chain` and `Cyclic`, for any edge function.

module GeoPolygon {
  import opened Wrappers
  import opened Sequences
  import opened JsMath
  import opened GeoTypes
  import opened GeoErrors
  import GeoPoint
  import GeoLine

  /** A polygon; `Make` lists its points counter-clockwise. */
  datatype Polygon = Polygon(points: seq<Point>)

  // ---------------------------------------------------------------------
  // Sums over the edges of a point list

  /** The sum of f over consecutive pairs (s[i], s[i + 1]). */
  function Chain(s: seq<Point>, f: (Point, Point) -> real): real
  {
    if |s| < 2 then 0.0 else Chain(s[..|s| - 1], f) + f(s[|s| - 2], s[|s| - 1])
  }

  /** The sum of f over the edges (s[i], s[(i + 1) % n]) of the closed ring. */
  function Cyclic(s: seq<Point>, f: (Point, Point) -> real): real
  {
    if s == [] then 0.0 else Chain(s, f) + f(s[|s| - 1], s[0])
  }

  /** f gives the same value, or the opposite value, when an edge is traversed backwards. */
  ghost predicate Reversible(f: (Point, Point) -> real, antisymmetric: bool)
  {
    forall a, b :: f(b, a) == if antisymmetric then -f(a, b) else f(a, b)
  }

  /**
   * What the loops over the edges (points[i], points[(i + 1) % n]) have
   * summed after i steps: the chain of the first i + 1 points, and once every
   * edge is in, the whole ring.
   */
  function EdgeSum(s: seq<Point>, i: int, f: (Point, Point) -> real): real
    requires 0 <= i <= |s|
  {
    if i < |s| then Chain(s[..i + 1], f) else Cyclic(s, f)
  }

  /** The prefix chain grows by the edge (s[i], s[i + 1]). */
  lemma ChainStep(s: seq<Point>, i: int, f: (Point, Point) -> real)
    requires 0 <= i < |s| - 1
    ensures Chain(s[..i + 2], f) == Chain(s[..i + 1], f) + f(s[i], s[i + 1])
  {
    assert s[..i + 2][..i + 1] == s[..i + 1];
  }

  /** One loop step adds the edge from s[i] to s[(i + 1) % n]. */
  lemma EdgeSumStep(s: seq<Point>, i: int, f: (Point, Point) -> real)
    requires 0 <= i < |s|
    ensures EdgeSum(s, i + 1, f) == EdgeSum(s, i, f) + f(s[i], s[(i + 1) % |s|])
  {
    if i + 1 < |s| {
      assert s[..i + 2][..i + 1] == s[..i + 1];
    } else {
      assert s[..i + 1] == s;
    }
  }

  lemma {:induction false} ChainPrepend(x: Point, s: seq<Point>, f: (Point, Point) -> real)
    requires |s| >= 1
    ensures Chain([x] + s, f) == f(x, s[0]) + Chain(s, f)
  {
    if |s| >= 2 {
      assert ([x] + s)[..|s|] == [x] + s[..|s| - 1];
      ChainPrepend(x, s[..|s| - 1], f);
    }
  }

  lemma {:induction false} ChainReverse(s: seq<Point>, f: (Point, Point) -> real, antisymmetric: bool)
    requires Reversible(f, antisymmetric)
    ensures Chain(Reverse(s), f) == if antisymmetric then -Chain(s, f) else Chain(s, f)
  {
    if |s| >= 2 {
      var t := s[..|s| - 1];
      assert Reverse(s) == [s[|s| - 1]] + Reverse(t);
      ChainReverse(t, f, antisymmetric);
      ChainPrepend(s[|s| - 1], Reverse(t), f);
    }
  }

  /** Traversing the ring backwards negates an antisymmetric sum and keeps a symmetric one. */
  lemma CyclicReverse(s: seq<Point>, f: (Point, Point) -> real, antisymmetric: bool)
    requires Reversible(f, antisymmetric)
    ensures Cyclic(Reverse(s), f) == if antisymmetric then -Cyclic(s, f) else Cyclic(s, f)
  {
    ChainReverse(s, f, antisymmetric);
  }

  lemma {:induction false} ChainNonNeg(s: seq<Point>, f: (Point, Point) -> real)
    requires forall a, b :: 0.0 <= f(a, b)
    ensures 0.0 <= Chain(s, f)
  {
    if |s| >= 2 {
      ChainNonNeg(s[..|s| - 1], f);
    }
  }

  // ---------------------------------------------------------------------
  // Signed area

  /** The shoelace cross term x_i * y_j - x_j * y_i of the edge from a to b. */
  function EdgeCross(a: Point, b: Point): real
  {
    Mul(a.x, b.y) - Mul(b.x, a.y)
  }

  /** Twice the signed area: positive for a counter-clockwise ring. */
  function ShoelaceSum(s: seq<Point>): real
  {
    Cyclic(s, EdgeCross)
  }

  /** `signedArea`: half the shoelace sum, accumulated edge by edge. */
  method SignedArea(points: seq<Point>) returns (area: real)
    ensures area == ShoelaceSum(points) / 2.0
  {
    var sum := 0.0;
    var n := |points|;
    var i := 0;
    while i < n
      invariant 0 <= i <= n
      invariant sum == EdgeSum(points, i, EdgeCross)
    {
      var j := (i + 1) % n;
      sum := sum + EdgeCross(points[i], points[j]);
      EdgeSumStep(points, i, EdgeCross);
      i := i + 1;
    }
    area := sum / 2.0;
  }

  lemma EdgeCrossReversible()
    ensures Reversible(EdgeCross, true)
  {
  }

  /** Reversing the point list negates the signed area. */
  lemma ShoelaceReverse(s: seq<Point>)
    ensures ShoelaceSum(Reverse(s)) == -ShoelaceSum(s)
  {
    EdgeCrossReversible();
    CyclicReverse(s, EdgeCross, true);
  }

  /** `make`: at least three points, listed counter-clockwise. */
  function Make(points: seq<Point>): (r: Result<Polygon, GeoError>)
    ensures r.Err? <==> |points| < 3
    ensures r.Err? ==> r.error == InvalidPolygon("weniger als 3 Punkte")
    ensures r.Ok? ==> r.value.points == points || r.value.points == Reverse(points)
    ensures r.Ok? ==> 0.0 <= ShoelaceSum(r.value.points)
    ensures r.Ok? && 0.0 <= ShoelaceSum(points) ==> r.value.points == points
  {
    if |points| < 3 then Err(InvalidPolygon("weniger als 3 Punkte"))
    else if ShoelaceSum(points) < 0.0 then
      ShoelaceReverse(points);
      Ok(Polygon(Reverse(points)))
    else Ok(Polygon(points))
  }

  /** `area`: the absolute signed area. */
  function Area(poly: Polygon): (r: real)
    ensures 0.0 <= r
    ensures r == ShoelaceSum(poly.points) / 2.0 || r == -ShoelaceSum(poly.points) / 2.0
  {
    Abs(ShoelaceSum(poly.points) / 2.0)
  }

  lemma AreaReverse(poly: Polygon)
    ensures Area(Polygon(Reverse(poly.points))) == Area(poly)
  {
    ShoelaceReverse(poly.points);
  }

  // ---------------------------------------------------------------------
  // Orientation

  /** `isClockwise`: the signed area is negative. */
  predicate IsClockwise(poly: Polygon)
  {
    ShoelaceSum(poly.points) < 0.0
  }

  function ToClockwise(poly: Polygon): (r: Polygon)
    ensures r.points == poly.points || r.points == Reverse(poly.points)
    ensures ShoelaceSum(poly.points) != 0.0 ==> IsClockwise(r)
    ensures IsClockwise(poly) ==> r == poly
    ensures Area(r) == Area(poly)
  {
    if IsClockwise(poly) then poly
    else
      AreaReverse(poly);
      ShoelaceReverse(poly.points);
      Polygon(Reverse(poly.points))
  }

  function ToCounterClockwise(poly: Polygon): (r: Polygon)
    ensures r.points == poly.points || r.points == Reverse(poly.points)
    ensures !IsClockwise(r)
    ensures !IsClockwise(poly) ==> r == poly
    ensures Area(r) == Area(poly)
  {
    if !IsClockwise(poly) then poly
    else
      AreaReverse(poly);
      ShoelaceReverse(poly.points);
      Polygon(Reverse(poly.points))
  }

  /** `make` never yields a clockwise polygon. */
  lemma MakeNotClockwise(points: seq<Point>)
    requires Make(points).Ok?
    ensures !IsClockwise(Make(points).value)
    ensures ToCounterClockwise(Make(points).value) == Make(points).value
  {
  }

  // ---------------------------------------------------------------------
  // Construction from lines

  /** The first and last line of a connected chain meet within the default tolerance. */
  predicate ClosesUp(lines: seq<GeoLine.Line>)
    requires lines != []
  {
    GeoPoint.Equals(lines[|lines| - 1].p2, lines[0].p1, GeoPoint.EQUALS_TOL)
  }

  /** `fromLines`: a closed chain of at least three lines, one point per line. */
  method FromLines(lines: seq<GeoLine.Line>) returns (r: Result<Polygon, GeoError>)
    ensures |lines| < 3 ==> r == Err(InvalidPolygon("weniger als 3 Linien fuer ein Polygon noetig"))
    ensures 3 <= |lines| && !GeoLine.ConnectedUpTo(lines, |lines|) ==>
      exists j :: (1 <= j < |lines| && r == Err(DiscontinuousLines(j - 1)) &&
        GeoLine.ConnectedUpTo(lines, j) && !GeoPoint.Equals(lines[j - 1].p2, lines[j].p1, GeoPoint.EQUALS_TOL))
    ensures 3 <= |lines| && GeoLine.ConnectedUpTo(lines, |lines|) && !ClosesUp(lines) ==>
      r == Err(InvalidPolygon("Linien bilden keinen geschlossenen Zug"))
    ensures 3 <= |lines| && GeoLine.ConnectedUpTo(lines, |lines|) && ClosesUp(lines) ==>
      r.Ok? && r == Make(GeoLine.ChainPoints(lines)[..|lines|]) && |r.value.points| == |lines|
  {
    if |lines| < 3 {
      return Err(InvalidPolygon("weniger als 3 Linien fuer ein Polygon noetig"));
    }
    var chained := GeoLine.ChainLines(lines);
    if chained.Err? {
      return Err(chained.error);
    }
    var points := chained.value;
    if !GeoPoint.Equals(points[|points| - 1], points[0], GeoPoint.EQUALS_TOL) {
      return Err(InvalidPolygon("Linien bilden keinen geschlossenen Zug"));
    }
    r := Make(points[..|points| - 1]);
  }

  // ---------------------------------------------------------------------
  // Centroid and perimeter

  /** The x term (x_i + x_j) * cross of the centroid sums. */
  function CentroidXTerm(a: Point, b: Point): real
  {
    Mul(a.x + b.x, EdgeCross(a, b))
  }

  /** The y term (y_i + y_j) * cross of the centroid sums. */
  function CentroidYTerm(a: Point, b: Point): real
  {
    Mul(a.y + b.y, EdgeCross(a, b))
  }

  /** The area centroid, or the first point when the area (nearly) vanishes. */
  function CentroidOf(points: seq<Point>): Point
    requires points != []
  {
    var a := ShoelaceSum(points) / 2.0;
    if Abs(a) < TOL_SQ then points[0]
    else Point(Cyclic(points, CentroidXTerm) / (6.0 * a), Cyclic(points, CentroidYTerm) / (6.0 * a))
  }

  /** `centroid`. Its callers hold polygons from `Make`, which have points. */
  method Centroid(poly: Polygon) returns (c: Point)
    requires poly.points != []
    ensures c == CentroidOf(poly.points)
  {
    var pts := poly.points;
    var n := |pts|;
    var a := SignedArea(pts);
    if Abs(a) < TOL_SQ {
      return pts[0];
    }
    var cx, cy := 0.0, 0.0;
    var i := 0;
    while i < n
      invariant 0 <= i <= n
      invariant cx == EdgeSum(pts, i, CentroidXTerm)
      invariant cy == EdgeSum(pts, i, CentroidYTerm)
    {
      var j := (i + 1) % n;
      var cross := EdgeCross(pts[i], pts[j]);
      cx := cx + Mul(pts[i].x + pts[j].x, cross);
      cy := cy + Mul(pts[i].y + pts[j].y, cross);
      EdgeSumStep(pts, i, CentroidXTerm);
      EdgeSumStep(pts, i, CentroidYTerm);
      i := i + 1;
    }
    c := Point(cx / (6.0 * a), cy / (6.0 * a));
  }

  lemma MulNegRight(a: real, b: real)
    ensures Mul(a, -b) == -Mul(a, b)
  {
  }

  lemma CentroidTermsReversible()
    ensures Reversible(CentroidXTerm, true) && Reversible(CentroidYTerm, true)
  {
    forall a: Point, b: Point
      ensures CentroidXTerm(b, a) == -CentroidXTerm(a, b) && CentroidYTerm(b, a) == -CentroidYTerm(a, b)
    {
      MulNegRight(a.x + b.x, EdgeCross(a, b));
      MulNegRight(a.y + b.y, EdgeCross(a, b));
    }
  }

  /** The centroid of a polygon with area does not depend on its orientation. */
  lemma CentroidReverse(points: seq<Point>)
    requires points != []
    requires TOL_SQ <= Abs(ShoelaceSum(points) / 2.0)
    ensures CentroidOf(Reverse(points)) == CentroidOf(points)
  {
    ShoelaceReverse(points);
    CentroidTermsReversible();
    CyclicReverse(points, CentroidXTerm, true);
    CyclicReverse(points, CentroidYTerm, true);
    var a := ShoelaceSum(points) / 2.0;
    NegatedQuotient(Cyclic(points, CentroidXTerm), 6.0 * a);
    NegatedQuotient(Cyclic(points, CentroidYTerm), 6.0 * a);
    assert 6.0 * (ShoelaceSum(Reverse(points)) / 2.0) == -(6.0 * a);
  }

  lemma NegatedQuotient(x: real, d: real)
    requires d != 0.0
    ensures -x / -d == x / d
  {
  }

  /** The length of an edge, as an edge function for Chain and Cyclic. */
  function EdgeLength(m: Libm): (Point, Point) -> real
  {
    (a, b) => GeoPoint.Distance(m, a, b)
  }

  lemma EdgeLengthReversible(m: Libm)
    requires SqrtLaw(m)
    ensures Reversible(EdgeLength(m), false)
    ensures forall a, b :: 0.0 <= EdgeLength(m)(a, b)
  {
    forall a, b ensures 0.0 <= EdgeLength(m)(a, b) && EdgeLength(m)(b, a) == EdgeLength(m)(a, b) {
      GeoPoint.DistanceMetric(m, a, b);
    }
  }

  /** The closed ring's length: the distances of all edges, the closing edge included. */
  function PerimeterOf(m: Libm, points: seq<Point>): real
  {
    Cyclic(points, EdgeLength(m))
  }

  /** `perimeter`. */
  method Perimeter(m: Libm, poly: Polygon) returns (total: real)
    ensures total == PerimeterOf(m, poly.points)
  {
    var pts := poly.points;
    var edge := EdgeLength(m);
    total := 0.0;
    var i := 0;
    while i < |pts|
      invariant 0 <= i <= |pts|
      invariant total == EdgeSum(pts, i, edge)
    {
      total := total + GeoPoint.Distance(m, pts[i], pts[(i + 1) % |pts|]);
      EdgeSumStep(pts, i, edge);
      i := i + 1;
    }
  }

  /** The perimeter is non-negative and the same in either orientation. */
  lemma PerimeterProperties(m: Libm, points: seq<Point>)
    requires SqrtLaw(m)
    ensures 0.0 <= PerimeterOf(m, points)
    ensures PerimeterOf(m, Reverse(points)) == PerimeterOf(m, points)
  {
    EdgeLengthReversible(m);
    ChainNonNeg(points, EdgeLength(m));
    CyclicReverse(points, EdgeLength(m), false);
  }

  // ---------------------------------------------------------------------
  // Point containment

  /**
   * The edge from a to b straddles the horizontal line through p and meets
   * it to the right of p.
   */
  predicate EdgeCrossesRay(a: Point, b: Point, p: Point)
  {
    (a.y > p.y) != (b.y > p.y) && p.x < Mul(b.x - a.x, p.y - a.y) / (b.y - a.y) + a.x
  }

  /** The number of the first k edges (pts[i], pts[i - 1]), the first one closing the ring, that cross the ray. */
  function Crossings(pts: seq<Point>, p: Point, k: int): nat
    requires 0 <= k <= |pts|
  {
    if k == 0 then 0
    else
      var prev := if k == 1 then |pts| - 1 else k - 2;
      Crossings(pts, p, k - 1) + if EdgeCrossesRay(pts[k - 1], pts[prev], p) then 1 else 0
  }

  /** `contains`: the even-odd rule over the edges of the ring. */
  method Contains(poly: Polygon, p: Point) returns (inside: bool)
    ensures inside <==> Crossings(poly.points, p, |poly.points|) % 2 == 1
  {
    inside := false;
    var pts := poly.points;
    var i, j := 0, |pts| - 1;
    while i < |pts|
      invariant 0 <= i <= |pts|
      invariant j == if i == 0 then |pts| - 1 else i - 1
      invariant inside <==> Crossings(pts, p, i) % 2 == 1
    {
      var xi, yi := pts[i].x, pts[i].y;
      var xj, yj := pts[j].x, pts[j].y;
      if (yi > p.y) != (yj > p.y) && p.x < Mul(xj - xi, p.y - yi) / (yj - yi) + xi {
        inside := !inside;
      }
      j, i := i, i + 1;
    }
  }

  /** No edge straddles a horizontal line on or above, or strictly below, every vertex. */
  lemma {:induction false} NoCrossingsOutsideBand(pts: seq<Point>, p: Point, k: int)
    requires 0 <= k <= |pts|
    requires (forall i :: 0 <= i < |pts| ==> pts[i].y <= p.y) || (forall i :: 0 <= i < |pts| ==> pts[i].y > p.y)
    ensures Crossings(pts, p, k) == 0
  {
    if k > 0 {
      NoCrossingsOutsideBand(pts, p, k - 1);
    }
  }

  /** A point level with or above the top vertex, or below the bottom one, is outside. */
  lemma ContainsOutsideBand(poly: Polygon, p: Point)
    requires (forall i :: 0 <= i < |poly.points| ==> poly.points[i].y <= p.y) ||
             (forall i :: 0 <= i < |poly.points| ==> poly.points[i].y > p.y)
    ensures Crossings(poly.points, p, |poly.points|) % 2 == 0
  {
    NoCrossingsOutsideBand(poly.points, p, |poly.points|);
  }

  // ---------------------------------------------------------------------
  // Bounding box

  /** The x coordinate of p, or its y coordinate. */
  function Coord(p: Point, onX: bool): real
  {
    if onX then p.x else p.y
  }

  /** b is at most every vertex's coordinate and is one of them (+Infinity when there are none). */
  ghost predicate LowBound(pts: seq<Point>, onX: bool, b: Ext)
  {
    (forall k :: 0 <= k < |pts| ==> ExtLe(b, Fin(Coord(pts[k], onX)))) &&
    (|pts| == 0 ==> b == PosInf) &&
    (|pts| > 0 ==> exists k :: 0 <= k < |pts| && b == Fin(Coord(pts[k], onX)))
  }

  /** b is at least every vertex's coordinate and is one of them (-Infinity when there are none). */
  ghost predicate HighBound(pts: seq<Point>, onX: bool, b: Ext)
  {
    (forall k :: 0 <= k < |pts| ==> ExtLe(Fin(Coord(pts[k], onX)), b)) &&
    (|pts| == 0 ==> b == NegInf) &&
    (|pts| > 0 ==> exists k :: 0 <= k < |pts| && b == Fin(Coord(pts[k], onX)))
  }

  /** The box holds every vertex and each bound is a coordinate of some vertex. */
  ghost predicate TightBox(pts: seq<Point>, box: ExtBox)
  {
    LowBound(pts, true, box.minX) && LowBound(pts, false, box.minY) &&
    HighBound(pts, true, box.maxX) && HighBound(pts, false, box.maxY)
  }

  /** Taking the smaller of the bound and the next vertex's coordinate keeps a low bound. */
  lemma LowStep(pts: seq<Point>, i: nat, onX: bool, b: Ext)
    requires i < |pts| && LowBound(pts[..i], onX, b)
    ensures var c := Fin(Coord(pts[i], onX));
      LowBound(pts[..i + 1], onX, if !ExtLe(b, c) then c else b)
  {
    var c := Fin(Coord(pts[i], onX));
    assert forall k :: 0 <= k < i ==> pts[..i + 1][k] == pts[..i][k];
    assert pts[..i + 1][i] == pts[i];
  }

  /** Taking the larger of the bound and the next vertex's coordinate keeps a high bound. */
  lemma HighStep(pts: seq<Point>, i: nat, onX: bool, b: Ext)
    requires i < |pts| && HighBound(pts[..i], onX, b)
    ensures var c := Fin(Coord(pts[i], onX));
      HighBound(pts[..i + 1], onX, if !ExtLe(c, b) then c else b)
  {
    var c := Fin(Coord(pts[i], onX));
    assert forall k :: 0 <= k < i ==> pts[..i + 1][k] == pts[..i][k];
    assert pts[..i + 1][i] == pts[i];
  }

  /** `boundingBox`: bounds start at +-Infinity and tighten vertex by vertex. */
  method BoundingBox(poly: Polygon) returns (box: ExtBox)
    ensures TightBox(poly.points, box)
  {
    var pts := poly.points;
    var minX, minY, maxX, maxY := PosInf, PosInf, NegInf, NegInf;
    var i := 0;
    while i < |pts|
      invariant 0 <= i <= |pts|
      invariant TightBox(pts[..i], ExtBox(minX, minY, maxX, maxY))
    {
      var p := pts[i];
      LowStep(pts, i, true, minX);
      LowStep(pts, i, false, minY);
      HighStep(pts, i, true, maxX);
      HighStep(pts, i, false, maxY);
      if !ExtLe(minX, Fin(p.x)) { minX := Fin(p.x); }
      if !ExtLe(minY, Fin(p.y)) { minY := Fin(p.y); }
      if !ExtLe(Fin(p.x), maxX) { maxX := Fin(p.x); }
      if !ExtLe(Fin(p.y), maxY) { maxY := Fin(p.y); }
      i := i + 1;
    }
    assert pts[..i] == pts;
    box := ExtBox(minX, minY, maxX, maxY);
  }

  // ---------------------------------------------------------------------
  // Transforms

  function TranslatePoints(pts: seq<Point>, v: Vector): (r: seq<Point>)
    ensures |r| == |pts|
    ensures forall i :: 0 <= i < |pts| ==> r[i] == GeoPoint.Translate(pts[i], v)
  {
    seq(|pts|, i requires 0 <= i < |pts| => GeoPoint.Translate(pts[i], v))
  }

  /** `translate`: every vertex moves by v; the orientation is not re-checked. */
  function Translate(poly: Polygon, v: Vector): (r: Polygon)
    ensures r.points == TranslatePoints(poly.points, v)
  {
    Polygon(TranslatePoints(poly.points, v))
  }

  /** How an edge's cross term changes under a translation by v. */
  function Drift(a: Point, v: Vector): real
  {
    Mul(a.x, v.dy) - Mul(a.y, v.dx)
  }

  lemma EdgeCrossTranslate(a: Point, b: Point, v: Vector)
    ensures EdgeCross(GeoPoint.Translate(a, v), GeoPoint.Translate(b, v)) == EdgeCross(a, b) + Drift(a, v) - Drift(b, v)
  {
    var ax, ay, bx, bY := a.x + v.dx, a.y + v.dy, b.x + v.dx, b.y + v.dy;
    assert GeoPoint.Translate(a, v) == Point(ax, ay);
    assert GeoPoint.Translate(b, v) == Point(bx, bY);
    var p1, p2 := ax * bY, bx * ay;
    assert p1 == a.x * b.y + a.x * v.dy + v.dx * b.y + v.dx * v.dy;
    assert p2 == b.x * a.y + b.x * v.dy + v.dx * a.y + v.dx * v.dy;
  }

  lemma {:induction false} ChainTranslate(s: seq<Point>, v: Vector)
    requires s != []
    ensures Chain(TranslatePoints(s, v), EdgeCross) == Chain(s, EdgeCross) + Drift(s[0], v) - Drift(s[|s| - 1], v)
  {
    if |s| >= 2 {
      var t := s[..|s| - 1];
      assert TranslatePoints(s, v)[..|s| - 1] == TranslatePoints(t, v);
      ChainTranslate(t, v);
      EdgeCrossTranslate(s[|s| - 2], s[|s| - 1], v);
    }
  }

  /** Translation preserves the signed area. */
  lemma TranslateKeepsSignedArea(poly: Polygon, v: Vector)
    ensures ShoelaceSum(Translate(poly, v).points) == ShoelaceSum(poly.points)
  {
    var s := poly.points;
    if s != [] {
      ChainTranslate(s, v);
      EdgeCrossTranslate(s[|s| - 1], s[0], v);
    }
  }

  /** `rotate`: every vertex turns about origin. */
  function Rotate(m: Libm, poly: Polygon, angle: real, origin: Point): (r: Polygon)
    ensures |r.points| == |poly.points|
    ensures forall i :: 0 <= i < |poly.points| ==> r.points[i] == GeoPoint.Rotate(m, poly.points[i], angle, origin)
  {
    Polygon(seq(|poly.points|, i requires 0 <= i < |poly.points| => GeoPoint.Rotate(m, poly.points[i], angle, origin)))
  }

  /** Mirrors every point in order; fails when the axis is degenerate and a point is mirrored. */
  function MirrorPoints(pts: seq<Point>, a1: Point, a2: Point): (r: Result<seq<Point>, GeoError>)
    ensures r.Err? <==> pts != [] && SqDist(a1, a2) < TOL_SQ
    ensures r.Err? ==> r.error == DegenerateAxis
    ensures r.Ok? ==> |r.value| == |pts|
    ensures r.Ok? ==> forall i :: 0 <= i < |pts| ==> GeoPoint.Mirror(pts[i], a1, a2) == Ok(r.value[i])
  {
    if pts == [] then Ok([])
    else if SqDist(a1, a2) < TOL_SQ then Err(DegenerateAxis)
    else Ok(seq(|pts|, i requires 0 <= i < |pts| => GeoPoint.Mirror(pts[i], a1, a2).value))
  }

  /** `mirror`: mirrors the vertices, then restores counter-clockwise order. */
  function Mirror(poly: Polygon, a1: Point, a2: Point): (r: Result<Polygon, GeoError>)
    ensures r.Err? <==> MirrorPoints(poly.points, a1, a2).Err?
    ensures r.Err? ==> r.error == DegenerateAxis
    ensures r.Ok? ==> !IsClockwise(r.value)
    ensures r.Ok? ==> var mirrored := MirrorPoints(poly.points, a1, a2).value;
      (0.0 <= ShoelaceSum(mirrored) ==> r.value.points == mirrored) &&
      (ShoelaceSum(mirrored) < 0.0 ==> r.value.points == Reverse(mirrored))
  {
    match MirrorPoints(poly.points, a1, a2)
    case Err(e) => Err(e)
    case Ok(mirrored) =>
      if ShoelaceSum(mirrored) < 0.0 then
        ShoelaceReverse(mirrored);
        Ok(Polygon(Reverse(mirrored)))
      else Ok(Polygon(mirrored))
  }

  /** The projection coefficient (u . d) / len of an offset u onto the axis direction d. */
  function Coef(u: Point, d: Point, len: real): real
    requires len != 0.0
  {
    (u.x * d.x + u.y * d.y) / len
  }

  /**
   * The reflection of an offset u from the axis start across the axis
   * direction d, where len is the squared length of d: 2 (u . d) / len * d - u.
   */
  function ReflectOffset(u: Point, d: Point, len: real): Point
    requires len != 0.0
  {
    Point(2.0 * (Coef(u, d, len) * d.x) - u.x, 2.0 * (Coef(u, d, len) * d.y) - u.y)
  }

  /** The polynomial identity behind the determinant of a reflection. */
  lemma ReflectIdentity(ux: real, uy: real, wx: real, wy: real, dx: real, dy: real)
    ensures (ux * dx + uy * dy) * (wx * dy - dx * wy) + (wx * dx + wy * dy) * (dx * uy - ux * dy)
         == -((dx * dx + dy * dy) * (ux * wy - wx * uy))
  {
  }

  lemma CrossExpand(a: real, b: real, dx: real, dy: real, ux: real, uy: real, wx: real, wy: real)
    ensures (2.0 * (a * dx) - ux) * (2.0 * (b * dy) - wy) - (2.0 * (b * dx) - wx) * (2.0 * (a * dy) - uy)
         == (ux * wy - wx * uy) + 2.0 * (a * (wx * dy - dx * wy) + b * (dx * uy - ux * dy))
  {
  }

  lemma ZeroFactor(a: real, b: real)
    requires a != 0.0 && a * b == 0.0
    ensures b == 0.0
  {
  }

  /** How far a reflection moves the cross term of u and w, halved. */
  function ReflectTerm(u: Point, w: Point, d: Point, len: real): real
    requires len != 0.0
  {
    Coef(u, d, len) * (w.x * d.y - d.x * w.y) + Coef(w, d, len) * (d.x * u.y - u.x * d.y)
  }

  lemma CancelByLength(ux: real, uy: real, wx: real, wy: real, dx: real, dy: real, len: real)
    requires len == dx * dx + dy * dy && len != 0.0
    ensures (ux * wy - wx * uy) + ((ux * dx + uy * dy) / len) * (wx * dy - dx * wy)
            + ((wx * dx + wy * dy) / len) * (dx * uy - ux * dy) == 0.0
  {
    var ud, wd := ux * dx + uy * dy, wx * dx + wy * dy;
    var a, b := ud / len, wd / len;
    var c := ux * wy - wx * uy;
    var x, y := wx * dy - dx * wy, dx * uy - ux * dy;
    ReflectIdentity(ux, uy, wx, wy, dx, dy);
    assert len * (a * x) == ud * x by { assert len * (a * x) == (len * a) * x; }
    assert len * (b * y) == wd * y by { assert len * (b * y) == (len * b) * y; }
    assert len * (c + a * x + b * y) == 0.0;
    ZeroFactor(len, c + a * x + b * y);
  }

  lemma ReflectCancels(u: Point, w: Point, d: Point, len: real)
    requires len == Sq(d.x) + Sq(d.y) && len != 0.0
    ensures EdgeCross(u, w) + ReflectTerm(u, w, d, len) == 0.0
  {
    CancelByLength(u.x, u.y, w.x, w.y, d.x, d.y, len);
  }

  lemma CrossOfReflected(u: Point, w: Point, d: Point, len: real)
    requires len != 0.0
    ensures EdgeCross(ReflectOffset(u, d, len), ReflectOffset(w, d, len))
         == EdgeCross(u, w) + 2.0 * ReflectTerm(u, w, d, len)
  {
    CrossExpand(Coef(u, d, len), Coef(w, d, len), d.x, d.y, u.x, u.y, w.x, w.y);
  }

  /** A reflection has determinant -1: it negates every shoelace cross term. */
  lemma EdgeCrossReflect(u: Point, w: Point, d: Point, len: real)
    requires len == Sq(d.x) + Sq(d.y) && len != 0.0
    ensures EdgeCross(ReflectOffset(u, d, len), ReflectOffset(w, d, len)) == -EdgeCross(u, w)
  {
    CrossOfReflected(u, w, d, len);
    ReflectCancels(u, w, d, len);
  }

  function ReflectPoints(s: seq<Point>, d: Point, len: real): (r: seq<Point>)
    requires len != 0.0
    ensures |r| == |s|
    ensures forall i :: 0 <= i < |s| ==> r[i] == ReflectOffset(s[i], d, len)
  {
    seq(|s|, i requires 0 <= i < |s| => ReflectOffset(s[i], d, len))
  }

  lemma {:induction false} ChainReflect(s: seq<Point>, d: Point, len: real)
    requires len == Sq(d.x) + Sq(d.y) && len != 0.0
    ensures Chain(ReflectPoints(s, d, len), EdgeCross) == -Chain(s, EdgeCross)
  {
    if |s| >= 2 {
      var t := s[..|s| - 1];
      assert ReflectPoints(s, d, len)[..|s| - 1] == ReflectPoints(t, d, len);
      ChainReflect(t, d, len);
      EdgeCrossReflect(s[|s| - 2], s[|s| - 1], d, len);
    }
  }

  /** Mirroring a point is a shift to the axis start, a reflection, and the shift back. */
  lemma MirrorAsOffset(p: Point, a1: Point, a2: Point)
    requires TOL_SQ <= SqDist(a1, a2)
    ensures GeoPoint.Mirror(p, a1, a2).value
         == GeoPoint.Translate(ReflectOffset(GeoPoint.Translate(p, Vector(-a1.x, -a1.y)),
                                             Point(a2.x - a1.x, a2.y - a1.y), SqDist(a1, a2)),
                               Vector(a1.x, a1.y))
  {
    FootAsCoef(p, a1, a2);
  }

  lemma FootAsCoef(p: Point, a1: Point, a2: Point)
    requires TOL_SQ <= SqDist(a1, a2)
    ensures var d := Point(a2.x - a1.x, a2.y - a1.y);
      var t := Coef(GeoPoint.Translate(p, Vector(-a1.x, -a1.y)), d, SqDist(a1, a2));
      GeoPoint.Foot(p, a1, a2) == Point(a1.x + t * d.x, a1.y + t * d.y)
  {
    var u := GeoPoint.Translate(p, Vector(-a1.x, -a1.y));
    var d, len := Point(a2.x - a1.x, a2.y - a1.y), SqDist(a1, a2);
    assert u == Point(p.x - a1.x, p.y - a1.y);
    assert Projection(a1, a2, p) / len == Coef(u, d, len);
  }

  /** The mirrored list, written as shift, reflection and shift back. */
  lemma MirrorPointsAsOffsets(pts: seq<Point>, a1: Point, a2: Point)
    requires TOL_SQ <= SqDist(a1, a2)
    ensures MirrorPoints(pts, a1, a2).Ok?
    ensures MirrorPoints(pts, a1, a2).value
         == TranslatePoints(ReflectPoints(TranslatePoints(pts, Vector(-a1.x, -a1.y)),
                                          Point(a2.x - a1.x, a2.y - a1.y), SqDist(a1, a2)),
                            Vector(a1.x, a1.y))
  {
    var rebuilt := TranslatePoints(ReflectPoints(TranslatePoints(pts, Vector(-a1.x, -a1.y)),
                                                 Point(a2.x - a1.x, a2.y - a1.y), SqDist(a1, a2)),
                                   Vector(a1.x, a1.y));
    var mirrored := MirrorPoints(pts, a1, a2).value;
    forall i | 0 <= i < |pts|
      ensures mirrored[i] == rebuilt[i]
    {
      MirrorAsOffset(pts[i], a1, a2);
    }
  }

  /** Reflecting about the origin negates the shoelace sum. */
  lemma ShoelaceReflect(s: seq<Point>, d: Point, len: real)
    requires len == Sq(d.x) + Sq(d.y) && len != 0.0
    ensures ShoelaceSum(ReflectPoints(s, d, len)) == -ShoelaceSum(s)
  {
    if s != [] {
      ChainReflect(s, d, len);
      EdgeCrossReflect(s[|s| - 1], s[0], d, len);
    }
  }

  /** Mirroring a point list negates its shoelace sum. */
  lemma MirrorNegatesShoelace(pts: seq<Point>, a1: Point, a2: Point)
    requires TOL_SQ <= SqDist(a1, a2)
    ensures MirrorPoints(pts, a1, a2).Ok?
    ensures ShoelaceSum(MirrorPoints(pts, a1, a2).value) == -ShoelaceSum(pts)
  {
    var d, len := Point(a2.x - a1.x, a2.y - a1.y), SqDist(a1, a2);
    var back, forth := Vector(-a1.x, -a1.y), Vector(a1.x, a1.y);
    var shifted := TranslatePoints(pts, back);
    var reflected := ReflectPoints(shifted, d, len);
    MirrorPointsAsOffsets(pts, a1, a2);
    TranslateKeepsSignedArea(Polygon(pts), back);
    ShoelaceReflect(shifted, d, len);
    TranslateKeepsSignedArea(Polygon(reflected), forth);
  }

  /** Mirroring keeps the area of a polygon. */
  lemma MirrorKeepsArea(poly: Polygon, a1: Point, a2: Point)
    requires Mirror(poly, a1, a2).Ok?
    ensures Area(Mirror(poly, a1, a2).value) == Area(poly)
  {
    var mirrored := MirrorPoints(poly.points, a1, a2).value;
    if poly.points == [] {
      assert mirrored == [];
    } else {
      MirrorNegatesShoelace(poly.points, a1, a2);
      ShoelaceReverse(mirrored);
    }
  }

  lemma MirrorPointsReverse(pts: seq<Point>, a1: Point, a2: Point)
    requires TOL_SQ <= SqDist(a1, a2)
    ensures MirrorPoints(Reverse(pts), a1, a2) == Ok(Reverse(MirrorPoints(pts, a1, a2).value))
  {
    if pts != [] {
      var n, rev, mirrored := |pts|, Reverse(pts), MirrorPoints(pts, a1, a2).value;
      var left := MirrorPoints(rev, a1, a2).value;
      forall i | 0 <= i < n
        ensures left[i] == Reverse(mirrored)[i]
      {
        assert rev[i] == pts[n - 1 - i];
        assert Ok(left[i]) == GeoPoint.Mirror(rev[i], a1, a2);
        assert GeoPoint.Mirror(pts[n - 1 - i], a1, a2) == Ok(mirrored[n - 1 - i]);
      }
      assert left == Reverse(mirrored);
    }
  }

  lemma MirrorPointsTwice(pts: seq<Point>, a1: Point, a2: Point)
    requires TOL_SQ <= SqDist(a1, a2)
    ensures MirrorPoints(MirrorPoints(pts, a1, a2).value, a1, a2) == Ok(pts)
  {
    var once := MirrorPoints(pts, a1, a2).value;
    var twice := MirrorPoints(once, a1, a2).value;
    forall i | 0 <= i < |pts| ensures twice[i] == pts[i] {
      GeoPoint.MirrorInvolution(pts[i], a1, a2);
    }
    assert twice == pts;
  }

  /** Mirroring a counter-clockwise polygon twice across the same axis gives it back. */
  lemma MirrorTwice(poly: Polygon, a1: Point, a2: Point)
    requires Mirror(poly, a1, a2).Ok?
    requires !IsClockwise(poly)
    ensures Mirror(Mirror(poly, a1, a2).value, a1, a2) == Ok(poly)
  {
    var pts := poly.points;
    var mirrored := MirrorPoints(pts, a1, a2).value;
    if pts == [] {
      assert mirrored == [];
    } else {
      MirrorNegatesShoelace(pts, a1, a2);
      MirrorPointsTwice(pts, a1, a2);
      if ShoelaceSum(pts) == 0.0 {
        assert Mirror(poly, a1, a2).value.points == mirrored;
      } else {
        assert Mirror(poly, a1, a2).value.points == Reverse(mirrored);
        MirrorPointsReverse(mirrored, a1, a2);
        ShoelaceReverse(pts);
        ReverseInvolution(pts);
      }
    }
  }

  // ---------------------------------------------------------------------
  // Ring marshalling for the clipping library

  /** `toMartinez`: the coordinate ring, closed by repeating the first coordinate. */
  function ToRing(poly: Polygon): (ring: seq<(real, real)>)
    requires poly.points != []
    ensures |ring| == |poly.points| + 1 && ring[|ring| - 1] == ring[0]
  {
    var coords := seq(|poly.points|, i requires 0 <= i < |poly.points| => (poly.points[i].x, poly.points[i].y));
    coords + [coords[0]]
  }

  /** The point list `fromMartinez` reads back from a closed ring, before `make`. */
  function FromRing(ring: seq<(real, real)>): (pts: seq<Point>)
    requires ring != []
    ensures |pts| == |ring| - 1
  {
    seq(|ring| - 1, i requires 0 <= i < |ring| - 1 => Point(ring[i].0, ring[i].1))
  }

  lemma RingRoundTrip(poly: Polygon)
    requires poly.points != []
    ensures FromRing(ToRing(poly)) == poly.points
  {
  }
}
