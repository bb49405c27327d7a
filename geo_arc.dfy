// Circular arcs of the 2D geometry kernel: construction from a centre or
// through three points, measures, sampling into a polyline, intersections
// with lines and other arcs, and transforms.  Angles are counter-clockwise.

module GeoArc {
  import opened Wrappers
  import opened JsMath
  import opened GeoTypes
  import opened GeoErrors
  import GeoPoint
  import GeoVector
  import GeoLine
  import opened Sequences

  datatype Arc = Arc(center: Point, radius: real, startAngle: real, endAngle: real)

  /** `|p|^2`, the coordinate sum of squares used by the circumcentre formula. */
  function Norm2(a: Point): real
  {
    Sq(a.x) + Sq(a.y)
  }

  /** `2 * (ax (by - cy) + bx (cy - ay) + cx (ay - by))`. */
  function DetR(ax: real, ay: real, bx: real, bY: real, cx: real, cy: real): real
  {
    2.0 * (ax * (bY - cy) + bx * (cy - ay) + cx * (ay - bY))
  }

  function NumXR(ay: real, bY: real, cy: real, na: real, nb: real, nc: real): real
  {
    na * (bY - cy) + nb * (cy - ay) + nc * (ay - bY)
  }

  function NumYR(ax: real, bx: real, cx: real, na: real, nb: real, nc: real): real
  {
    na * (cx - bx) + nb * (ax - cx) + nc * (bx - ax)
  }

  function Det(a: Point, b: Point, c: Point): real
  {
    DetR(a.x, a.y, b.x, b.y, c.x, c.y)
  }

  function NumX(a: Point, b: Point, c: Point): real
  {
    NumXR(a.y, b.y, c.y, Norm2(a), Norm2(b), Norm2(c))
  }

  function NumY(a: Point, b: Point, c: Point): real
  {
    NumYR(a.x, b.x, c.x, Norm2(a), Norm2(b), Norm2(c))
  }

  /** The centre (ux, uy) computed by `fromPoints`. */
  function Circumcentre(a: Point, b: Point, c: Point): Point
    requires Det(a, b, c) != 0.0
  {
    Point(NumX(a, b, c) / Det(a, b, c), NumY(a, b, c) / Det(a, b, c))
  }

  function Cross2(u: Point, a: Point, b: Point): real
  {
    2.0 * (u.x * (a.x - b.x) + u.y * (a.y - b.y))
  }

  lemma SqDistDiff(u: Point, a: Point, b: Point)
    ensures SqDist(u, a) - SqDist(u, b) == Norm2(a) - Norm2(b) - Cross2(u, a, b)
  {
  }

  lemma ScaleBack(u: Point, nx: real, ny: real, d: real, a: Point, b: Point)
    requires d != 0.0 && u == Point(nx / d, ny / d)
    requires 2.0 * (Mul(nx, a.x - b.x) + Mul(ny, a.y - b.y)) == Mul(d, Norm2(a) - Norm2(b))
    ensures Cross2(u, a, b) == Norm2(a) - Norm2(b)
  {
    assert u.x * d == nx;
    assert u.y * d == ny;
    assert d * Cross2(u, a, b) == 2.0 * (nx * (a.x - b.x) + ny * (a.y - b.y));
  }

  lemma EquidistantFromScaled(nx: real, ny: real, d: real, a: Point, b: Point)
    requires d != 0.0
    requires 2.0 * (Mul(nx, a.x - b.x) + Mul(ny, a.y - b.y)) == Mul(d, Norm2(a) - Norm2(b))
    ensures SqDist(Point(nx / d, ny / d), a) == SqDist(Point(nx / d, ny / d), b)
  {
    ScaleBack(Point(nx / d, ny / d), nx, ny, d, a, b);
    SqDistDiff(Point(nx / d, ny / d), a, b);
  }

  lemma CramerAB(ax: real, ay: real, bx: real, bY: real, cx: real, cy: real, na: real, nb: real, nc: real)
    ensures 2.0 * (Mul(NumXR(ay, bY, cy, na, nb, nc), ax - bx) + Mul(NumYR(ax, bx, cx, na, nb, nc), ay - bY))
         == Mul(DetR(ax, ay, bx, bY, cx, cy), na - nb)
  {
  }

  lemma CramerBC(ax: real, ay: real, bx: real, bY: real, cx: real, cy: real, na: real, nb: real, nc: real)
    ensures 2.0 * (Mul(NumXR(ay, bY, cy, na, nb, nc), bx - cx) + Mul(NumYR(ax, bx, cx, na, nb, nc), bY - cy))
         == Mul(DetR(ax, ay, bx, bY, cx, cy), nb - nc)
  {
  }

  lemma CircumcentreAB(a: Point, b: Point, c: Point)
    requires Det(a, b, c) != 0.0
    ensures SqDist(Circumcentre(a, b, c), a) == SqDist(Circumcentre(a, b, c), b)
  {
    CramerAB(a.x, a.y, b.x, b.y, c.x, c.y, Norm2(a), Norm2(b), Norm2(c));
    Half(NumX(a, b, c), NumY(a, b, c), Det(a, b, c), a, b);
  }

  lemma CircumcentreBC(a: Point, b: Point, c: Point)
    requires Det(a, b, c) != 0.0
    ensures SqDist(Circumcentre(a, b, c), b) == SqDist(Circumcentre(a, b, c), c)
  {
    CramerBC(a.x, a.y, b.x, b.y, c.x, c.y, Norm2(a), Norm2(b), Norm2(c));
    Half(NumX(a, b, c), NumY(a, b, c), Det(a, b, c), b, c);
  }

  lemma Half(nx: real, ny: real, d: real, a: Point, b: Point)
    requires d != 0.0
    requires 2.0 * (Mul(nx, a.x - b.x) + Mul(ny, a.y - b.y)) == Mul(d, Norm2(a) - Norm2(b))
    ensures SqDist(Point(nx / d, ny / d), a) == SqDist(Point(nx / d, ny / d), b)
  {
    EquidistantFromScaled(nx, ny, d, a, b);
  }

  /** Over exact reals the centre is equally far from all three points. */
  lemma CircumcentreEquidistant(a: Point, b: Point, c: Point)
    requires Det(a, b, c) != 0.0
    ensures SqDist(Circumcentre(a, b, c), a) == SqDist(Circumcentre(a, b, c), b)
    ensures SqDist(Circumcentre(a, b, c), a) == SqDist(Circumcentre(a, b, c), c)
  {
    CircumcentreAB(a, b, c);
    CircumcentreBC(a, b, c);
  }

  /** A centre whose three points are not collinear is at positive distance from them. */
  lemma CircumradiusPositive(a: Point, b: Point, c: Point)
    requires Det(a, b, c) != 0.0
    ensures 0.0 < SqDist(Circumcentre(a, b, c), a)
  {
    var u := Circumcentre(a, b, c);
    CircumcentreEquidistant(a, b, c);
    if SqDist(u, a) == 0.0 {
      ZeroSqDist(u, a);
      ZeroSqDist(u, b);
      ZeroSqDist(u, c);
      assert false;
    }
  }

  function FromCenter(center: Point, radius: real, startAngle: real, endAngle: real): (r: Result<Arc, GeoError>)
    ensures r.Err? <==> radius <= 0.0
    ensures r.Err? ==> r.error == InvalidArc(RadiusNotPositive(radius))
    ensures r.Ok? ==> r.value == Arc(center, radius, startAngle, endAngle)
  {
    if radius <= 0.0 then Err(InvalidArc(RadiusNotPositive(radius)))
    else Ok(Arc(center, radius, startAngle, endAngle))
  }

  /** The polar angle of p seen from c. */
  function AngleOf(m: Libm, c: Point, p: Point): real
  {
    m.atan2(p.y - c.y, p.x - c.x)
  }

  /**
   * The arc through p1, p2 and p3: its centre is the circumcentre, its radius
   * the distance to p1, and it runs from p1's angle to p3's unless p2's angle
   * lies outside that sweep, in which case the two angles are swapped.
   */
  method FromPoints(m: Libm, p1: Point, p2: Point, p3: Point) returns (r: Result<Arc, GeoError>)
    ensures r.Err? <==> Abs(Det(p1, p2, p3)) < TOL
    ensures r.Err? ==> r.error == CollinearPoints
    ensures r.Ok? ==>
      var c := Circumcentre(p1, p2, p3);
      var a1, a2, a3 := AngleOf(m, c, p1), AngleOf(m, c, p2), AngleOf(m, c, p3);
      && r.value.center == c
      && r.value.radius == GeoPoint.Distance(m, c, p1)
      && (r.value.startAngle, r.value.endAngle)
         == if AngleInArc(a2, a1, SweepAngle(a1, a3), TOL) then (a1, a3) else (a3, a1)
  {
    var d := Det(p1, p2, p3);
    if Abs(d) < TOL {
      return Err(CollinearPoints);
    }
    var center := Circumcentre(p1, p2, p3);
    var startAngle := AngleOf(m, center, p1);
    var endAngle := AngleOf(m, center, p3);
    var p2Angle := AngleOf(m, center, p2);
    var sweep := SweepAngle(startAngle, endAngle);
    if !AngleInArc(p2Angle, startAngle, sweep, TOL) {
      var tmp := startAngle;
      startAngle := endAngle;
      endAngle := tmp;
    }
    r := Ok(Arc(center, GeoPoint.Distance(m, center, p1), startAngle, endAngle));
  }

  /** `sweep * radius`. */
  function Length(a: Arc): (r: real)
    ensures 0.0 <= a.radius ==> 0.0 <= r <= Mul(TWO_PI, a.radius)
  {
    LengthBound(SweepAngle(a.startAngle, a.endAngle), a.radius);
    Mul(SweepAngle(a.startAngle, a.endAngle), a.radius)
  }

  lemma LengthBound(sweep: real, radius: real)
    requires 0.0 <= sweep <= TWO_PI
    ensures 0.0 <= radius ==> 0.0 <= Mul(sweep, radius) <= Mul(TWO_PI, radius)
  {
    if 0.0 <= radius {
      MulNonNeg(sweep, radius);
      MulNonNeg(TWO_PI - sweep, radius);
      MulAddLeft(sweep, TWO_PI - sweep, radius);
    }
  }

  /** The point of the arc's circle at the given angle. */
  function PointAtAngle(m: Libm, a: Arc, angle: real): Point
  {
    Point(a.center.x + a.radius * m.cos(angle), a.center.y + a.radius * m.sin(angle))
  }

  function Midpoint(m: Libm, a: Arc): Point
  {
    PointAtAngle(m, a, a.startAngle + SweepAngle(a.startAngle, a.endAngle) / 2.0)
  }

  function StartPoint(m: Libm, a: Arc): Point
  {
    PointAtAngle(m, a, a.startAngle)
  }

  function EndPoint(m: Libm, a: Arc): Point
  {
    PointAtAngle(m, a, a.endAngle)
  }

  function NormalAt(m: Libm, angle: real): Vector
  {
    Vector(m.cos(angle), m.sin(angle))
  }

  function NormalAtPoint(m: Libm, a: Arc, p: Point): Vector
  {
    NormalAt(m, AngleOf(m, a.center, p))
  }

  function Offset(a: Arc, distance: real): (r: Result<Arc, GeoError>)
    ensures r.Err? <==> a.radius + distance <= 0.0
    ensures r.Err? ==> r.error == InvalidArc(OffsetRadiusNotPositive(distance, a.radius + distance))
    ensures r.Ok? ==> r.value == a.(radius := a.radius + distance)
  {
    var newRadius := a.radius + distance;
    if newRadius <= 0.0 then Err(InvalidArc(OffsetRadiusNotPositive(distance, newRadius)))
    else Ok(a.(radius := newRadius))
  }

  /** The two ways of asking for a polyline: a segment count or a chord tolerance. */
  datatype PolylineOptions = Segments(segments: real) | Tolerance(tolerance: real)

  const DEFAULT_POLYLINE_OPTIONS: PolylineOptions := Tolerance(0.1)

  /** `toPolyline` accepts the options: a positive count or a positive tolerance. */
  predicate ValidOptions(options: PolylineOptions)
  {
    match options
    case Segments(n) => 0.0 < n
    case Tolerance(t) => 0.0 < t
  }

  /**
   * The number of segments: the given count, or at least 2 and enough chords
   * of angle `acos(1 - tolerance / radius)` to cover the sweep.
   */
  function SegmentCount(m: Libm, a: Arc, options: PolylineOptions): (n: real)
    requires ValidOptions(options)
    requires options.Tolerance? ==> 0.0 < a.radius && AcosLaw(m)
    ensures 0.0 < n
    ensures options.Tolerance? ==> 2.0 <= n && IsIntegral(n)
  {
    match options
    case Segments(n) => n
    case Tolerance(t) =>
      var x := Clamp(-1.0, 1.0, 1.0 - t / a.radius);
      assert 0.0 < t / a.radius;
      var chord := m.acos(x);
      MaxInt(2, Ceil(SweepAngle(a.startAngle, a.endAngle) / chord)) as real
  }

  /** The i-th of the sampled points when the sweep is cut into n parts. */
  function SamplePoint(m: Libm, a: Arc, i: int, n: real): Point
    requires n != 0.0
  {
    PointAtAngle(m, a, a.startAngle + Mul(SweepAngle(a.startAngle, a.endAngle), i as real / n))
  }

  /**
   * Samples the arc: points i = 0, 1, ... while i <= segments, so a whole
   * count n gives n + 1 points, and a tolerance gives at least 3.
   */
  method ToPolyline(m: Libm, a: Arc, options: PolylineOptions) returns (r: Result<seq<Point>, GeoError>)
    requires options.Tolerance? ==> 0.0 < a.radius && AcosLaw(m)
    ensures r.Err? <==> !ValidOptions(options)
    ensures r.Err? ==> r.error == InvalidArc(
      match options
      case Segments(n) => SegmentsNotPositive(n)
      case Tolerance(t) => ToleranceNotPositive(t))
    ensures r.Ok? ==>
      var n := SegmentCount(m, a, options);
      && |r.value| == n.Floor + 1
      && forall i :: 0 <= i < |r.value| ==> r.value[i] == SamplePoint(m, a, i, n)
    ensures r.Ok? && options.Segments? && IsIntegral(options.segments) ==> |r.value| == options.segments.Floor + 1
    ensures r.Ok? && options.Tolerance? ==> 3 <= |r.value|
  {
    match options {
      case Segments(n) =>
        if n <= 0.0 {
          return Err(InvalidArc(SegmentsNotPositive(n)));
        }
      case Tolerance(t) =>
        if t <= 0.0 {
          return Err(InvalidArc(ToleranceNotPositive(t)));
        }
    }
    var segments := SegmentCount(m, a, options);
    var points: seq<Point> := [];
    var i := 0;
    while i as real <= segments
      invariant 0 <= i <= segments.Floor + 1
      invariant |points| == i
      invariant forall k :: 0 <= k < i ==> points[k] == SamplePoint(m, a, k, segments)
      decreases segments.Floor + 1 - i
    {
      points := points + [SamplePoint(m, a, i, segments)];
      i := i + 1;
    }
    r := Ok(points);
  }

  /** Roots of `qa t^2 + qb t + qc` by the quadratic formula, over exact reals. */
  lemma QuadraticRoot(qa: real, qb: real, qc: real, s: real)
    requires qa != 0.0
    requires Sq(s) == Sq(qb) - 4.0 * Mul(qa, qc)
    ensures Mul(qa, Sq((-qb + s) / (2.0 * qa))) + Mul(qb, (-qb + s) / (2.0 * qa)) + qc == 0.0
  {
    var t := (-qb + s) / (2.0 * qa);
    var w := 2.0 * qa * t;
    assert w == -qb + s;
    assert Sq(w + qb) == Sq(s);
    var tt, at := t * t, qa * t;
    var e := qa * tt + qb * t + qc;
    assert Sq(w + qb) == 4.0 * qa * e + Sq(qb) - 4.0 * qa * qc;
    assert 4.0 * qa * e == 0.0;
  }

  /** The squared distance from c to the point at parameter t of the line. */
  lemma DistanceAlongLine(c: Point, p1: Point, p2: Point, t: real)
    ensures SqDist(c, Along(p1, p2, t))
         == Mul(Sq(p2.x - p1.x) + Sq(p2.y - p1.y), Sq(t))
          + Mul(2.0 * (Mul(p1.x - c.x, p2.x - p1.x) + Mul(p1.y - c.y, p2.y - p1.y)), t)
          + (Sq(p1.x - c.x) + Sq(p1.y - c.y))
  {
    var q := Along(p1, p2, t);
    var dx, dy, fx, fy := p2.x - p1.x, p2.y - p1.y, p1.x - c.x, p1.y - c.y;
    assert q.x - c.x == fx + Mul(t, dx);
    assert q.y - c.y == fy + Mul(t, dy);
    SquareOfAffine(fx, dx, t);
    SquareOfAffine(fy, dy, t);
    MulAddLeft(Sq(dx), Sq(dy), Sq(t));
    MulAddLeft(2.0 * Mul(fx, dx), 2.0 * Mul(fy, dy), t);
  }

  lemma SquareOfAffine(f: real, d: real, t: real)
    ensures Sq(f + Mul(t, d)) == Sq(f) + Mul(2.0 * Mul(f, d), t) + Mul(Sq(d), Sq(t))
  {
  }

  /** The intersections of the circle with the infinite line through `line`. */
  function IntersectLineFull(m: Libm, a: Arc, line: GeoLine.Line): (r: seq<Point>)
    ensures |r| <= 2
  {
    var dx, dy := line.p2.x - line.p1.x, line.p2.y - line.p1.y;
    var fx, fy := line.p1.x - a.center.x, line.p1.y - a.center.y;
    var qa := Sq(dx) + Sq(dy);
    if qa < TOL_SQ then []
    else
      var qb := 2.0 * (Mul(fx, dx) + Mul(fy, dy));
      var qc := Sq(fx) + Sq(fy) - Sq(a.radius);
      var disc := Sq(qb) - 4.0 * Mul(qa, qc);
      if disc < 0.0 then []
      else if disc < TOL then [Along(line.p1, line.p2, -qb / (2.0 * qa))]
      else
        var s := m.sqrt(disc);
        [Along(line.p1, line.p2, (-qb + -s) / (2.0 * qa)), Along(line.p1, line.p2, (-qb + s) / (2.0 * qa))]
  }

  /**
   * The number of intersections: none for a (nearly) zero-length line or a
   * negative discriminant, one below the tolerance, two otherwise.
   */
  lemma IntersectLineFullCount(m: Libm, a: Arc, line: GeoLine.Line)
    ensures
      var dx, dy := line.p2.x - line.p1.x, line.p2.y - line.p1.y;
      var fx, fy := line.p1.x - a.center.x, line.p1.y - a.center.y;
      var qa, qb, qc := Sq(dx) + Sq(dy), 2.0 * (Mul(fx, dx) + Mul(fy, dy)), Sq(fx) + Sq(fy) - Sq(a.radius);
      var disc := Sq(qb) - 4.0 * Mul(qa, qc);
      |IntersectLineFull(m, a, line)| == if qa < TOL_SQ || disc < 0.0 then 0 else if disc < TOL then 1 else 2
  {
  }

  /**
   * Over exact reals the two intersection points lie on the circle, and so
   * does the single one when the discriminant is exactly zero.
   */
  lemma IntersectLineFullOnCircle(m: Libm, a: Arc, line: GeoLine.Line, p: Point)
    requires SqrtLaw(m)
    requires p in IntersectLineFull(m, a, line)
    requires |IntersectLineFull(m, a, line)| == 1 ==>
      var dx, dy := line.p2.x - line.p1.x, line.p2.y - line.p1.y;
      var fx, fy := line.p1.x - a.center.x, line.p1.y - a.center.y;
      var qa, qb, qc := Sq(dx) + Sq(dy), 2.0 * (Mul(fx, dx) + Mul(fy, dy)), Sq(fx) + Sq(fy) - Sq(a.radius);
      Sq(qb) - 4.0 * Mul(qa, qc) == 0.0
    ensures SqDist(a.center, p) == Sq(a.radius)
  {
    var dx, dy := line.p2.x - line.p1.x, line.p2.y - line.p1.y;
    var fx, fy := line.p1.x - a.center.x, line.p1.y - a.center.y;
    var qa, qb := Sq(dx) + Sq(dy), 2.0 * (Mul(fx, dx) + Mul(fy, dy));
    var qc := Sq(fx) + Sq(fy) - Sq(a.radius);
    var disc := Sq(qb) - 4.0 * Mul(qa, qc);
    var r := IntersectLineFull(m, a, line);
    if disc < TOL {
      assert disc == 0.0;
      assert Sq(0.0) == disc;
      var t := (-qb + 0.0) / (2.0 * qa);
      QuadraticRoot(qa, qb, qc, 0.0);
      assert p == Along(line.p1, line.p2, t);
      RootOnCircle(a.center, a.radius, line.p1, line.p2, t);
    } else {
      var s := m.sqrt(disc);
      assert Sq(s) == disc;
      if p == r[0] {
        var t := (-qb + -s) / (2.0 * qa);
        SqNeg(s);
        QuadraticRoot(qa, qb, qc, -s);
        RootOnCircle(a.center, a.radius, line.p1, line.p2, t);
      } else {
        var t := (-qb + s) / (2.0 * qa);
        QuadraticRoot(qa, qb, qc, s);
        RootOnCircle(a.center, a.radius, line.p1, line.p2, t);
      }
    }
  }

  /** A root of the distance quadratic is a point of the line on the circle. */
  lemma RootOnCircle(c: Point, radius: real, p1: Point, p2: Point, t: real)
    requires
      var dx, dy := p2.x - p1.x, p2.y - p1.y;
      var fx, fy := p1.x - c.x, p1.y - c.y;
      Mul(Sq(dx) + Sq(dy), Sq(t)) + Mul(2.0 * (Mul(fx, dx) + Mul(fy, dy)), t) + (Sq(fx) + Sq(fy) - Sq(radius)) == 0.0
    ensures SqDist(c, Along(p1, p2, t)) == Sq(radius)
  {
    DistanceAlongLine(c, p1, p2, t);
  }

  /** Whether p's angle around the arc's centre lies on the arc. */
  predicate OnArc(m: Libm, a: Arc, p: Point)
  {
    AngleInArc(AngleOf(m, a.center, p), a.startAngle, SweepAngle(a.startAngle, a.endAngle), TOL)
  }

  /** The intersections with the line that lie on the arc, in order. */
  function IntersectLine(m: Libm, a: Arc, line: GeoLine.Line): (r: seq<Point>)
    ensures |r| <= |IntersectLineFull(m, a, line)|
    ensures forall p :: p in r <==> p in IntersectLineFull(m, a, line) && OnArc(m, a, p)
  {
    Filter(IntersectLineFull(m, a, line), p => OnArc(m, a, p))
  }

  /**
   * The intersections of two full circles: none when they are apart, nested
   * or concentric, one when they touch, two otherwise.
   */
  function IntersectArcFull(m: Libm, a: Arc, b: Arc): (r: seq<Point>)
    requires 0.0 < a.radius
    ensures |r| <= 2
    ensures
      var d := GeoPoint.Distance(m, a.center, b.center);
      |r| == 0 <==> (d > a.radius + b.radius || d < Abs(a.radius - b.radius) || d < TOL)
  {
    var d := GeoPoint.Distance(m, a.center, b.center);
    if d > a.radius + b.radius || d < Abs(a.radius - b.radius) || d < TOL then []
    else
      var cosA := (Sq(a.radius) + Sq(d) - Sq(b.radius)) / (2.0 * a.radius * d);
      var baseAngle := m.atan2(b.center.y - a.center.y, b.center.x - a.center.x);
      var alpha := m.acos(Clamp(-1.0, 1.0, cosA));
      if alpha < TOL then [PointAtAngle(m, a, baseAngle)]
      else [PointAtAngle(m, a, baseAngle + alpha), PointAtAngle(m, a, baseAngle + -alpha)]
  }

  /** The circle intersections that lie on both arcs, in order. */
  function IntersectArc(m: Libm, a: Arc, b: Arc): (r: seq<Point>)
    requires 0.0 < a.radius
    ensures |r| <= |IntersectArcFull(m, a, b)|
    ensures forall p :: p in r <==> p in IntersectArcFull(m, a, b) && OnArc(m, a, p) && OnArc(m, b, p)
  {
    Filter(IntersectArcFull(m, a, b), p => OnArc(m, a, p) && OnArc(m, b, p))
  }

  function Translate(a: Arc, v: Vector): Arc
  {
    a.(center := GeoPoint.Translate(a.center, v))
  }

  function Rotate(m: Libm, a: Arc, angle: real, origin: Point): Arc
  {
    a.(center := GeoPoint.Rotate(m, a.center, angle, origin),
       startAngle := a.startAngle + angle, endAngle := a.endAngle + angle)
  }

  /** Translating and rotating keep the radius, the sweep and hence the length. */
  lemma TransformsKeepLength(m: Libm, a: Arc, v: Vector, angle: real, origin: Point)
    ensures Length(Translate(a, v)) == Length(a)
    ensures SweepAngle(Rotate(m, a, angle, origin).startAngle, Rotate(m, a, angle, origin).endAngle)
         == SweepAngle(a.startAngle, a.endAngle)
    ensures Length(Rotate(m, a, angle, origin)) == Length(a)
  {
    assert (a.endAngle + angle) - (a.startAngle + angle) == a.endAngle - a.startAngle;
  }

  /** The direction angle of the mirror axis. */
  function AxisAngle(m: Libm, a1: Point, a2: Point): real
  {
    m.atan2(a2.y - a1.y, a2.x - a1.x)
  }

  /**
   * Mirrors the centre and reflects both angles across the axis angle; the
   * reflected end becomes the start so that the arc keeps running
   * counter-clockwise.
   */
  function Mirror(m: Libm, a: Arc, a1: Point, a2: Point): (r: Result<Arc, GeoError>)
    ensures r.Err? <==> SqDist(a1, a2) < TOL_SQ
    ensures r.Ok? ==> GeoPoint.Mirror(a.center, a1, a2) == Ok(r.value.center)
    ensures r.Ok? ==> r.value.radius == a.radius
    ensures r.Ok? ==> 0.0 <= r.value.startAngle < TWO_PI && 0.0 <= r.value.endAngle < TWO_PI
    ensures r.Ok? ==> r.value.startAngle == NormalizeAngle(2.0 * AxisAngle(m, a1, a2) - a.endAngle)
    ensures r.Ok? ==> r.value.endAngle == NormalizeAngle(2.0 * AxisAngle(m, a1, a2) - a.startAngle)
  {
    match GeoPoint.Mirror(a.center, a1, a2)
    case Err(e) => Err(e)
    case Ok(c) =>
      var alpha := AxisAngle(m, a1, a2);
      Ok(a.(center := c,
            startAngle := NormalizeAngle(2.0 * alpha - a.endAngle),
            endAngle := NormalizeAngle(2.0 * alpha - a.startAngle)))
  }

  /** Reflecting an angle twice across the same axis gives it back up to whole turns. */
  lemma ReflectAngleTwice(alpha: real, x: real, y: real)
    requires y == NormalizeAngle(2.0 * alpha - x)
    ensures NormalizeAngle(2.0 * alpha - y) == NormalizeAngle(x)
  {
    var k :| y == 2.0 * alpha - x + Turns(k);
    assert 2.0 * alpha - y == x + Turns(-k);
    NormalizeAnglePeriodic(x, -k);
  }

  lemma MirrorAngles(m: Libm, a: Arc, a1: Point, a2: Point)
    requires TOL_SQ <= SqDist(a1, a2)
    ensures Mirror(m, a, a1, a2).Ok?
    ensures Mirror(m, a, a1, a2).value.startAngle == NormalizeAngle(2.0 * AxisAngle(m, a1, a2) - a.endAngle)
    ensures Mirror(m, a, a1, a2).value.endAngle == NormalizeAngle(2.0 * AxisAngle(m, a1, a2) - a.startAngle)
  {
  }

  /** Mirroring twice restores the centre and the radius, and the angles up to whole turns. */
  lemma MirrorTwice(m: Libm, a: Arc, a1: Point, a2: Point)
    requires TOL_SQ <= SqDist(a1, a2)
    ensures Mirror(m, a, a1, a2).Ok?
    ensures Mirror(m, Mirror(m, a, a1, a2).value, a1, a2)
         == Ok(a.(startAngle := NormalizeAngle(a.startAngle), endAngle := NormalizeAngle(a.endAngle)))
  {
    GeoPoint.MirrorInvolution(a.center, a1, a2);
    var alpha := AxisAngle(m, a1, a2);
    var b := Mirror(m, a, a1, a2).value;
    MirrorAngles(m, a, a1, a2);
    assert b.center == GeoPoint.Mirror(a.center, a1, a2).value;
    var c := Mirror(m, b, a1, a2).value;
    MirrorAngles(m, b, a1, a2);
    assert Ok(c.center) == GeoPoint.Mirror(b.center, a1, a2) == Ok(a.center);
    ReflectAngleTwice(alpha, a.startAngle, b.endAngle);
    ReflectAngleTwice(alpha, a.endAngle, b.startAngle);
  }
}
