// Errors of the 2D geometry kernel and its point operations.

module GeoErrors {
  /** What made an arc invalid, with the offending numbers. */
  datatype ArcProblem =
    | RadiusNotPositive(radius: real)
    | OffsetRadiusNotPositive(distance: real, newRadius: real)
    | SegmentsNotPositive(segments: real)
    | ToleranceNotPositive(tolerance: real)

  /** One constructor per error class of the kernel. */
  datatype GeoError =
    | CollinearPoints
    | DegenerateVector
    | OpenPolyline
    | InvalidPolygon(reason: string)
    | InvalidArc(problem: ArcProblem)
    | DegenerateAxis
    | InvalidPolyline(reason: string)
    | DiscontinuousLines(index: int)
}

module GeoPoint {
  import opened Wrappers
  import opened JsMath
  import opened GeoTypes
  import opened GeoErrors

  /** Default tolerance of `equals`. */
  const EQUALS_TOL: real := 1.0e-10

  function Distance(m: Libm, a: Point, b: Point): real
  {
    m.sqrt(SqDist(a, b))
  }

  lemma DistanceMetric(m: Libm, a: Point, b: Point)
    requires SqrtLaw(m)
    ensures 0.0 <= Distance(m, a, b)
    ensures Distance(m, a, b) == Distance(m, b, a)
    ensures Distance(m, a, b) == 0.0 <==> a == b
  {
    SqDistSymmetric(a, b);
    if a == b {
      assert SqDist(a, b) == Sq(0.0) + Sq(0.0);
      SqrtZero(m);
    } else {
      SqDistPos(a, b);
    }
  }

  /** Both coordinate differences are within the tolerance. */
  predicate Equals(a: Point, b: Point, tolerance: real)
  {
    Abs(a.x - b.x) <= tolerance && Abs(a.y - b.y) <= tolerance
  }

  lemma EqualsProperties(a: Point, b: Point, tolerance: real, wider: real)
    ensures 0.0 <= tolerance ==> Equals(a, a, tolerance)
    ensures Equals(a, b, tolerance) == Equals(b, a, tolerance)
    ensures tolerance <= wider && Equals(a, b, tolerance) ==> Equals(a, b, wider)
  {
  }

  function Translate(p: Point, v: Vector): Point
  {
    Point(p.x + v.dx, p.y + v.dy)
  }

  lemma TranslateBack(p: Point, v: Vector)
    ensures Translate(Translate(p, v), Vector(-v.dx, -v.dy)) == p
    ensures SqDist(p, Translate(p, v)) == Sq(v.dx) + Sq(v.dy)
  {
  }

  /** Rotation about `origin` with the caller's cosine and sine. */
  function Rotate(m: Libm, p: Point, angle: real, origin: Point): Point
  {
    var c, s := m.cos(angle), m.sin(angle);
    var dx, dy := p.x - origin.x, p.y - origin.y;
    Point(origin.x + dx * c - dy * s, origin.y + dx * s + dy * c)
  }

  lemma RotateFixesOrigin(m: Libm, origin: Point, angle: real)
    ensures Rotate(m, origin, angle, origin) == origin
  {
  }

  /** The foot of the perpendicular from p onto the axis through a1 and a2. */
  function Foot(p: Point, a1: Point, a2: Point): Point
    requires SqDist(a1, a2) != 0.0
  {
    Along(a1, a2, Projection(a1, a2, p) / SqDist(a1, a2))
  }

  /** `2 * foot - p`, the reflection computed by `mirror`. */
  function Reflection(p: Point, a1: Point, a2: Point): (r: Point)
    requires SqDist(a1, a2) != 0.0
    ensures (p.x + r.x) / 2.0 == Foot(p, a1, a2).x && (p.y + r.y) / 2.0 == Foot(p, a1, a2).y
  {
    var f := Foot(p, a1, a2);
    Point(2.0 * f.x - p.x, 2.0 * f.y - p.y)
  }

  /** Reflection across the axis through a1 and a2; a too short axis is an error. */
  function Mirror(p: Point, a1: Point, a2: Point): (r: Result<Point, GeoError>)
    ensures r.Err? <==> SqDist(a1, a2) < TOL_SQ
    ensures r.Err? ==> r.error == DegenerateAxis
  {
    if SqDist(a1, a2) < TOL_SQ then Err(DegenerateAxis)
    else Ok(Reflection(p, a1, a2))
  }

  lemma ProjectionAlong(a: Point, b: Point, s: real)
    ensures Projection(a, b, Along(a, b, s)) == Mul(s, SqDist(a, b))
  {
    var dx, dy := b.x - a.x, b.y - a.y;
    var q := Along(a, b, s);
    assert q.x - a.x == Mul(s, dx);
    assert q.y - a.y == Mul(s, dy);
    MulSquareAssoc(s, dx);
    MulSquareAssoc(s, dy);
    MulAddRight(s, Sq(dx), Sq(dy));
  }

  lemma DoubleMinus(x: real, y: real, d: real)
    ensures Mul(2.0 * x - y, d) == 2.0 * Mul(x, d) - Mul(y, d)
  {
  }

  /** Reflecting does not move the foot on the axis. */
  lemma ReflectionProjection(p: Point, a1: Point, a2: Point)
    requires SqDist(a1, a2) != 0.0
    ensures Projection(a1, a2, Reflection(p, a1, a2)) == Projection(a1, a2, p)
  {
    var l := SqDist(a1, a2);
    var pr := Projection(a1, a2, p);
    var t := pr / l;
    var dx, dy := a2.x - a1.x, a2.y - a1.y;
    var r := Reflection(p, a1, a2);
    assert r.x - a1.x == 2.0 * Mul(t, dx) - (p.x - a1.x);
    assert r.y - a1.y == 2.0 * Mul(t, dy) - (p.y - a1.y);
    DoubleMinus(Mul(t, dx), p.x - a1.x, dx);
    DoubleMinus(Mul(t, dy), p.y - a1.y, dy);
    MulSquareAssoc(t, dx);
    MulSquareAssoc(t, dy);
    MulAddRight(t, Sq(dx), Sq(dy));
    MulDivCancel(pr, l);
  }

  /** Points of the axis are fixed by the mirror. */
  lemma MirrorFixesAxis(a1: Point, a2: Point, s: real)
    requires TOL_SQ <= SqDist(a1, a2)
    ensures Mirror(Along(a1, a2, s), a1, a2) == Ok(Along(a1, a2, s))
  {
    var l := SqDist(a1, a2);
    ProjectionAlong(a1, a2, s);
    MulDivCancel(s, l);
    assert Foot(Along(a1, a2, s), a1, a2) == Along(a1, a2, s);
  }

  /** Mirroring twice across the same axis gives the point back. */
  lemma MirrorInvolution(p: Point, a1: Point, a2: Point)
    requires TOL_SQ <= SqDist(a1, a2)
    ensures Mirror(p, a1, a2).Ok?
    ensures Mirror(Mirror(p, a1, a2).value, a1, a2) == Ok(p)
  {
    ReflectionProjection(p, a1, a2);
    var r := Reflection(p, a1, a2);
    assert Foot(r, a1, a2) == Foot(p, a1, a2);
  }
}
