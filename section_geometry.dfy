// The cross-section primitives: points of the (y, z) section plane, lines
// with a wall thickness, circular arcs given by centre, radius and two angles,
// the Line | Arc segment union, and contours made of segments.

module SectionPoint {
  import opened JsMath

  /** A point of the section plane; `make(y, z)` is this constructor. */
  datatype Point = Point(y: real, z: real)

  const DEFAULT_TOLERANCE: real := 1.0e-10

  /** The squared distance (a.y - b.y)^2 + (a.z - b.z)^2. */
  function SqDist(a: Point, b: Point): (r: real)
    ensures 0.0 <= r
  {
    SquareNonNeg(a.y - b.y);
    SquareNonNeg(a.z - b.z);
    Sq(a.y - b.y) + Sq(a.z - b.z)
  }

  function Distance(m: Libm, a: Point, b: Point): real
  {
    m.sqrt(SqDist(a, b))
  }

  lemma SqDistSymmetric(a: Point, b: Point)
    ensures SqDist(a, b) == SqDist(b, a)
  {
    SqNeg(a.y - b.y);
    SqNeg(a.z - b.z);
  }

  /** The distance is a metric: non-negative, symmetric, and zero exactly on identical points. */
  lemma DistanceProperties(m: Libm, a: Point, b: Point)
    requires SqrtLaw(m)
    ensures 0.0 <= Distance(m, a, b)
    ensures Distance(m, a, b) == Distance(m, b, a)
    ensures Distance(m, a, a) == 0.0
    ensures Distance(m, a, b) == 0.0 ==> a == b
  {
    SqDistSymmetric(a, b);
    SqrtZero(m);
    assert SqDist(a, a) == 0.0;
    if Distance(m, a, b) == 0.0 {
      assert Sq(Distance(m, a, b)) == SqDist(a, b);
      SquareNonNeg(a.y - b.y);
      SquareNonNeg(a.z - b.z);
      SqZero(a.y - b.y);
      SqZero(a.z - b.z);
    }
  }

  /** `equals`: both coordinates differ by at most the tolerance. */
  predicate Equals(a: Point, b: Point, tolerance: real)
  {
    Abs(a.y - b.y) <= tolerance && Abs(a.z - b.z) <= tolerance
  }

  /** Equality within a tolerance is reflexive, symmetric and monotone in the tolerance. */
  lemma EqualsProperties(a: Point, b: Point, tolerance: real, wider: real)
    ensures 0.0 <= tolerance ==> Equals(a, a, tolerance)
    ensures Equals(a, b, tolerance) == Equals(b, a, tolerance)
    ensures tolerance <= wider && Equals(a, b, tolerance) ==> Equals(a, b, wider)
  {
  }

  /** Equality at a wide tolerance does not give equality at a narrower one. */
  lemma EqualsNotAntitone()
    ensures Equals(Point(0.0, 0.0), Point(0.5, 0.0), 1.0)
    ensures !Equals(Point(0.0, 0.0), Point(0.5, 0.0), 0.1)
  {
  }
}

module SectionLine {
  import opened JsMath
  import opened SectionPoint

  /** A straight wall from p1 to p2; `make(p1, p2)` is this constructor. */
  datatype Line = Line(p1: Point, p2: Point)

  function Length(m: Libm, l: Line): real
  {
    Distance(m, l.p1, l.p2)
  }

  /** The length does not depend on the order of the endpoints. */
  lemma LengthSymmetric(m: Libm, l: Line)
    ensures Length(m, Line(l.p2, l.p1)) == Length(m, l)
  {
    SqDistSymmetric(l.p1, l.p2);
  }

  /** The coordinate average of the endpoints. */
  function Midpoint(l: Line): (r: Point)
    ensures r.y - l.p1.y == l.p2.y - r.y && r.z - l.p1.z == l.p2.z - r.z
  {
    Point((l.p1.y + l.p2.y) / 2.0, (l.p1.z + l.p2.z) / 2.0)
  }

  lemma MidpointEquidistant(l: Line)
    ensures SqDist(Midpoint(l), l.p1) == SqDist(Midpoint(l), l.p2)
  {
    var c := Midpoint(l);
    assert c.y - l.p1.y == -(c.y - l.p2.y) && c.z - l.p1.z == -(c.z - l.p2.z);
    SqNeg(c.y - l.p2.y);
    SqNeg(c.z - l.p2.z);
  }

  /** `area`: length times the wall thickness t. */
  function Area(m: Libm, l: Line, t: real): real
  {
    Mul(Length(m, l), t)
  }

  /** The area is linear in the thickness, zero for no thickness and never negative for a non-negative one. */
  lemma AreaLinear(m: Libm, l: Line, t1: real, t2: real)
    ensures Area(m, l, t1 + t2) == Area(m, l, t1) + Area(m, l, t2)
    ensures Area(m, l, 0.0) == 0.0
    ensures SqrtLaw(m) && 0.0 <= t1 ==> 0.0 <= Area(m, l, t1)
  {
    MulAddRight(Length(m, l), t1, t2);
    if SqrtLaw(m) && 0.0 <= t1 {
      MulNonNeg(Length(m, l), t1);
    }
  }
}

module SectionArc {
  import opened Wrappers
  import opened JsMath
  import opened SectionPoint

  /**
   * An arc of the section plane: angles in radians, measured clockwise from
   * the y axis with z pointing down. `fromCenter` is this constructor and
   * checks nothing.
   */
  datatype Arc = Arc(center: Point, radius: real, startAngle: real, endAngle: real)

  datatype SectionError =
    | CollinearPoints
      /** `toPolyline` divides 0 by 0 and yields NaN coordinates. */
    | NaNPoints

  /** `fromPoints` refuses a determinant below this. */
  const COLLINEAR_TOL: real := 1.0e-12

  /** The point at `angle` on the circle of the given centre and radius. */
  function CirclePoint(m: Libm, center: Point, radius: real, angle: real): Point
  {
    Point(center.y + Mul(radius, m.cos(angle)), center.z + Mul(radius, m.sin(angle)))
  }

  // ---------------------------------------------------------------------
  // Circle through three points

  function Mid(a: Point, b: Point): Point
  {
    Point((a.y + b.y) / 2.0, (a.z + b.z) / 2.0)
  }

  /** The determinant of the two perpendicular bisectors' directions. */
  function Det(p1: Point, p2: Point, p3: Point): real
  {
    Mul(-(p2.z - p1.z), -(p3.y - p2.y)) - Mul(p3.z - p2.z, p2.y - p1.y)
  }

  /** The parameter along the first bisector where the second one crosses it. */
  function BisectorParam(p1: Point, p2: Point, p3: Point): real
    requires Det(p1, p2, p3) != 0.0
  {
    var mid1, mid2 := Mid(p1, p2), Mid(p2, p3);
    (Mul(mid2.y - mid1.y, -(p3.y - p2.y)) - Mul(p3.z - p2.z, mid2.z - mid1.z)) / Det(p1, p2, p3)
  }

  /** The crossing of the two perpendicular bisectors. */
  function Centre(p1: Point, p2: Point, p3: Point): Point
    requires Det(p1, p2, p3) != 0.0
  {
    var mid1, t := Mid(p1, p2), BisectorParam(p1, p2, p3);
    Point(mid1.y - Mul(t, p2.z - p1.z), mid1.z + Mul(t, p2.y - p1.y))
  }

  /** The turn direction of p1 -> p2 -> p3; positive is clockwise in the section plane. */
  function Cross(p1: Point, p2: Point, p3: Point): real
  {
    Mul(p2.y - p1.y, p3.z - p2.z) - Mul(p2.z - p1.z, p3.y - p2.y)
  }

  function AngleFrom(m: Libm, c: Point, p: Point): real
  {
    m.atan2(p.z - c.z, p.y - c.y)
  }

  /** A point whose offset from the midpoint of a and b is orthogonal to b - a is as far from a as from b. */
  lemma BisectorEquidistant(cy: real, cz: real, y1: real, z1: real, y2: real, z2: real)
    requires Mul(cy - (y1 + y2) / 2.0, y2 - y1) + Mul(cz - (z1 + z2) / 2.0, z2 - z1) == 0.0
    ensures Sq(cy - y1) + Sq(cz - z1) == Sq(cy - y2) + Sq(cz - z2)
  {
    var uy, uz := cy - (y1 + y2) / 2.0, cz - (z1 + z2) / 2.0;
    var hy, hz := (y2 - y1) / 2.0, (z2 - z1) / 2.0;
    assert cy - y1 == uy + hy && cy - y2 == uy - hy;
    assert cz - z1 == uz + hz && cz - z2 == uz - hz;
    var qy, qz := uy * hy, uz * hz;
    assert (uy + hy) * (uy + hy) - (uy - hy) * (uy - hy) == 4.0 * qy;
    assert (uz + hz) * (uz + hz) - (uz - hz) * (uz - hz) == 4.0 * qz;
    assert uy * (y2 - y1) == 2.0 * qy;
    assert uz * (z2 - z1) == 2.0 * qz;
  }

  /** Every point of the first bisector is orthogonal to its chord. */
  lemma FirstBisectorOrthogonal(t: real, dy: real, dz: real)
    ensures Mul(-Mul(t, dz), dy) + Mul(Mul(t, dy), dz) == 0.0
  {
    var a := t * dz;
    var b := t * dy;
    assert a * dy == b * dz;
  }

  lemma NegatedFactors(x: real, y: real)
    ensures Mul(-x, -y) == Mul(x, y)
  {
  }

  lemma NegatedDifference(x: real, y: real, z: real)
    ensures Mul(x - y, -z) == Mul(y - x, z)
  {
  }

  lemma SwappedDifference(a: real, x: real, y: real)
    ensures Mul(a, x - y) == -Mul(y - x, a)
  {
  }

  /** The bisector parameter puts the centre on the second bisector too. */
  lemma SecondBisectorOrthogonal(m1y: real, m1z: real, m2y: real, m2z: real,
                                 dy1: real, dz1: real, dy2: real, dz2: real, t: real)
    requires Mul(-dz1, -dy2) - Mul(dz2, dy1) != 0.0
    requires t == (Mul(m2y - m1y, -dy2) - Mul(dz2, m2z - m1z)) / (Mul(-dz1, -dy2) - Mul(dz2, dy1))
    ensures Mul(m1y - Mul(t, dz1) - m2y, dy2) + Mul(m1z + Mul(t, dy1) - m2z, dz2) == 0.0
  {
    var det := Mul(dz1, dy2) - Mul(dz2, dy1);
    var num := Mul(m1y - m2y, dy2) + Mul(m1z - m2z, dz2);
    NegatedFactors(dz1, dy2);
    NegatedDifference(m2y, m1y, dy2);
    SwappedDifference(dz2, m2z, m1z);
    assert Mul(-dz1, -dy2) - Mul(dz2, dy1) == det;
    assert Mul(m2y - m1y, -dy2) - Mul(dz2, m2z - m1z) == num;
    MulDivCancel(num, det);
    assert t * det == num;
    var e1, e2 := t * dz1, t * dy1;
    var f1, f2 := e1 * dy2, e2 * dz2;
    assert f2 - f1 == -(t * det);
    assert (m1y - e1 - m2y) * dy2 == (m1y - m2y) * dy2 - f1;
    assert (m1z + e2 - m2z) * dz2 == (m1z - m2z) * dz2 + f2;
  }

  /** Over exact reals the centre of `fromPoints` is equally far from all three points. */
  lemma CentreEquidistant(p1: Point, p2: Point, p3: Point)
    requires Det(p1, p2, p3) != 0.0
    ensures SqDist(Centre(p1, p2, p3), p1) == SqDist(Centre(p1, p2, p3), p2)
    ensures SqDist(Centre(p1, p2, p3), p2) == SqDist(Centre(p1, p2, p3), p3)
  {
    var c, t := Centre(p1, p2, p3), BisectorParam(p1, p2, p3);
    var mid1, mid2 := Mid(p1, p2), Mid(p2, p3);
    FirstBisectorOrthogonal(t, p2.y - p1.y, p2.z - p1.z);
    assert c.y - (p1.y + p2.y) / 2.0 == -Mul(t, p2.z - p1.z);
    assert c.z - (p1.z + p2.z) / 2.0 == Mul(t, p2.y - p1.y);
    BisectorEquidistant(c.y, c.z, p1.y, p1.z, p2.y, p2.z);
    SecondBisectorOrthogonal(mid1.y, mid1.z, mid2.y, mid2.z, p2.y - p1.y, p2.z - p1.z, p3.y - p2.y, p3.z - p2.z, t);
    assert c.y - (p2.y + p3.y) / 2.0 == mid1.y - Mul(t, p2.z - p1.z) - mid2.y;
    assert c.z - (p2.z + p3.z) / 2.0 == mid1.z + Mul(t, p2.y - p1.y) - mid2.z;
    BisectorEquidistant(c.y, c.z, p2.y, p2.z, p3.y, p3.z);
  }

  lemma TurnsSucc(k: int)
    ensures Turns(k + 1) == Turns(k) + TWO_PI
  {
  }

  /**
   * The angles `fromPoints` ends with: mid and end are the atan2 angles of p2
   * and p3 shifted by whole turns (forward when clockwise, backward
   * otherwise) until start, mid and end are ordered, and no further.
   */
  ghost predicate Unwound(start: real, mid0: real, end0: real, clockwise: bool, mid: real, end: real, km: int, ke: int)
  {
    mid == mid0 + Turns(km) && end == end0 + Turns(ke) &&
    (clockwise ==>
      0 <= km && 0 <= ke && start <= mid <= end &&
      (km > 0 ==> mid - TWO_PI < start) && (ke > 0 ==> end - TWO_PI < mid)) &&
    (!clockwise ==>
      km <= 0 && ke <= 0 && end <= mid <= start &&
      (km < 0 ==> start < mid + TWO_PI) && (ke < 0 ==> mid < end + TWO_PI))
  }

  /** `while (angle < bound) angle += 2PI`: the first whole-turn shift of angle that is not below bound. */
  method TurnUp(angle: real, bound: real) returns (r: real, ghost k: int)
    ensures r == angle + Turns(k) && 0 <= k
    ensures bound <= r && (k > 0 ==> r - TWO_PI < bound)
  {
    r, k := angle, 0;
    while r < bound
      invariant r == angle + Turns(k) && 0 <= k
      invariant k > 0 ==> r - TWO_PI < bound
      decreases ((bound - r) / TWO_PI).Floor
    {
      TurnsSucc(k);
      r, k := r + TWO_PI, k + 1;
    }
  }

  /** `while (angle > bound) angle -= 2PI`: the first whole-turn shift of angle that is not above bound. */
  method TurnDown(angle: real, bound: real) returns (r: real, ghost k: int)
    ensures r == angle + Turns(k) && k <= 0
    ensures r <= bound && (k < 0 ==> bound < r + TWO_PI)
  {
    r, k := angle, 0;
    while r > bound
      invariant r == angle + Turns(k) && k <= 0
      invariant k < 0 ==> bound < r + TWO_PI
      decreases ((r - bound) / TWO_PI).Floor
    {
      TurnsSucc(k - 1);
      r, k := r - TWO_PI, k - 1;
    }
  }

  /** `fromPoints`: the arc through p1, p2 and p3, from p1 to p3. */
  method FromPoints(m: Libm, p1: Point, p2: Point, p3: Point) returns (r: Result<Arc, SectionError>)
    ensures r.Err? <==> Abs(Det(p1, p2, p3)) < COLLINEAR_TOL
    ensures r.Err? ==> r.error == CollinearPoints
    ensures r.Ok? ==> r.value.center == Centre(p1, p2, p3)
    ensures r.Ok? ==> r.value.radius == Distance(m, r.value.center, p1)
    ensures r.Ok? ==> r.value.startAngle == AngleFrom(m, r.value.center, p1)
    ensures r.Ok? && Cross(p1, p2, p3) > 0.0 ==> exists mid, km, ke :: Unwound(r.value.startAngle,
      AngleFrom(m, r.value.center, p2), AngleFrom(m, r.value.center, p3), true, mid, r.value.endAngle, km, ke)
    ensures r.Ok? && Cross(p1, p2, p3) <= 0.0 ==> exists mid, km, ke :: Unwound(r.value.startAngle,
      AngleFrom(m, r.value.center, p2), AngleFrom(m, r.value.center, p3), false, mid, r.value.endAngle, km, ke)
  {
    var mid1 := Point((p1.y + p2.y) / 2.0, (p1.z + p2.z) / 2.0);
    var dy1 := p2.y - p1.y;
    var dz1 := p2.z - p1.z;
    var mid2 := Point((p2.y + p3.y) / 2.0, (p2.z + p3.z) / 2.0);
    var dy2 := p3.y - p2.y;
    var dz2 := p3.z - p2.z;
    var det := Mul(-dz1, -dy2) - Mul(dz2, dy1);
    assert det == Det(p1, p2, p3);
    if Abs(det) < COLLINEAR_TOL {
      return Err(CollinearPoints);
    }
    var t := (Mul(mid2.y - mid1.y, -dy2) - Mul(dz2, mid2.z - mid1.z)) / det;
    assert mid1 == Mid(p1, p2) && mid2 == Mid(p2, p3) && t == BisectorParam(p1, p2, p3);
    var center := Point(mid1.y - Mul(t, dz1), mid1.z + Mul(t, dy1));
    assert center == Centre(p1, p2, p3);
    var radius := Distance(m, center, p1);
    var startAngle := m.atan2(p1.z - center.z, p1.y - center.y);
    var midAngle := m.atan2(p2.z - center.z, p2.y - center.y);
    var endAngle := m.atan2(p3.z - center.z, p3.y - center.y);
    var normalizedEnd, normalizedMid;
    ghost var km, ke;
    var crossProduct := Mul(p2.y - p1.y, p3.z - p2.z) - Mul(p2.z - p1.z, p3.y - p2.y);
    var isClockwise := crossProduct > 0.0;
    assert midAngle == AngleFrom(m, center, p2) && endAngle == AngleFrom(m, center, p3);
    assert isClockwise == (Cross(p1, p2, p3) > 0.0);
    if isClockwise {
      normalizedMid, km := TurnUp(midAngle, startAngle);
      normalizedEnd, ke := TurnUp(endAngle, normalizedMid);
      assert Unwound(startAngle, midAngle, endAngle, true, normalizedMid, normalizedEnd, km, ke);
    } else {
      normalizedMid, km := TurnDown(midAngle, startAngle);
      normalizedEnd, ke := TurnDown(endAngle, normalizedMid);
      assert Unwound(startAngle, midAngle, endAngle, false, normalizedMid, normalizedEnd, km, ke);
    }
    r := Ok(Arc(center, radius, startAngle, normalizedEnd));
  }

  // ---------------------------------------------------------------------
  // Length and sampling

  /** `length`: radius times the absolute angle difference. */
  function Length(a: Arc): (r: real)
    ensures 0.0 <= a.radius ==> 0.0 <= r
  {
    LengthNonNeg(a);
    Mul(a.radius, Abs(a.endAngle - a.startAngle))
  }

  lemma LengthNonNeg(a: Arc)
    ensures 0.0 <= a.radius ==> 0.0 <= Mul(a.radius, Abs(a.endAngle - a.startAngle))
  {
    if 0.0 <= a.radius {
      MulNonNeg(a.radius, Abs(a.endAngle - a.startAngle));
    }
  }

  /** Running the arc backwards does not change its length. */
  lemma LengthReversed(a: Arc)
    ensures Length(a.(startAngle := a.endAngle, endAngle := a.startAngle)) == Length(a)
  {
  }

  /** One segment per started degree of the angle difference. */
  function DefaultSegments(a: Arc): (n: real)
    ensures 0.0 <= n
    ensures Abs(a.endAngle - a.startAngle) * (180.0 / PI) <= n
    ensures n == 0.0 <==> a.endAngle == a.startAngle
  {
    Ceil(Abs(a.endAngle - a.startAngle) * (180.0 / PI)) as real
  }

  /** `segments ?? ceil(|angle difference| in degrees)`. */
  function SegmentCount(a: Arc, segments: Option<real>): real
  {
    if segments.Some? then segments.value else DefaultSegments(a)
  }

  /** The angle of sample i out of n. */
  function SampleAngle(a: Arc, n: real, i: int): real
    requires n != 0.0
  {
    a.startAngle + Mul(a.endAngle - a.startAngle, i as real) / n
  }

  /** The first sample is at the start angle; with a whole number n of segments the last is at the end angle. */
  lemma SampleAngleEnds(a: Arc, n: int)
    requires 0 < n
    ensures SampleAngle(a, n as real, 0) == a.startAngle
    ensures SampleAngle(a, n as real, n) == a.endAngle
  {
    MulDivCancel(a.endAngle - a.startAngle, n as real);
  }

  /** `toPolyline`: the points at angles start + difference * i / n for i = 0, 1, ... up to n. */
  method ToPolyline(m: Libm, a: Arc, segments: Option<real>) returns (r: Result<seq<Point>, SectionError>)
    ensures r.Err? <==> SegmentCount(a, segments) == 0.0
    ensures r.Err? ==> r.error == NaNPoints
    ensures r.Ok? ==> |r.value| == if SegmentCount(a, segments) < 0.0 then 0 else SegmentCount(a, segments).Floor + 1
    ensures r.Ok? ==> forall i :: 0 <= i < |r.value| ==>
      r.value[i] == CirclePoint(m, a.center, a.radius, SampleAngle(a, SegmentCount(a, segments), i))
  {
    var angleDiff := a.endAngle - a.startAngle;
    var absAngleDeg := Abs(angleDiff) * (180.0 / PI);
    var n := if segments.Some? then segments.value else Ceil(absAngleDeg) as real;
    if n == 0.0 {
      return Err(NaNPoints);
    }
    var points: seq<Point> := [];
    var i := 0;
    while i as real <= n
      invariant 0 <= i
      invariant n < 0.0 ==> i == 0
      invariant 0.0 < n ==> i <= n.Floor + 1
      invariant |points| == i
      invariant forall k :: 0 <= k < i ==> points[k] == CirclePoint(m, a.center, a.radius, SampleAngle(a, n, k))
      decreases n.Floor + 1 - i
    {
      var angle := a.startAngle + Mul(angleDiff, i as real) / n;
      points := points + [CirclePoint(m, a.center, a.radius, angle)];
      i := i + 1;
    }
    r := Ok(points);
  }
}

module SectionSegment {
  import opened JsMath
  import opened SectionPoint
  import SectionLine
  import SectionArc

  /** `Line | Arc`: a line carries `p1`, an arc carries `center`. */
  datatype Segment = LineSegment(line: SectionLine.Line) | ArcSegment(arc: SectionArc.Arc)

  /** `isLine`: the segment has a `p1`. */
  predicate IsLine(s: Segment)
  {
    s.LineSegment?
  }

  /** `isArc`: the segment has a `center`. */
  predicate IsArc(s: Segment)
  {
    s.ArcSegment?
  }

  function Length(m: Libm, s: Segment): (r: real)
    ensures IsLine(s) ==> r == SectionLine.Length(m, s.line)
    ensures IsArc(s) ==> r == SectionArc.Length(s.arc)
    ensures SqrtLaw(m) && (IsArc(s) ==> 0.0 <= s.arc.radius) ==> 0.0 <= r
  {
    match s
    case LineSegment(l) =>
      SqrtNonNeg(m, SqDist(l.p1, l.p2));
      SectionLine.Length(m, l)
    case ArcSegment(a) => SectionArc.Length(a)
  }

  lemma SqrtNonNeg(m: Libm, x: real)
    requires 0.0 <= x
    ensures SqrtLaw(m) ==> 0.0 <= m.sqrt(x)
  {
  }

  function StartPoint(m: Libm, s: Segment): (r: Point)
    ensures IsLine(s) ==> r == s.line.p1
    ensures IsArc(s) ==> r == SectionArc.CirclePoint(m, s.arc.center, s.arc.radius, s.arc.startAngle)
  {
    if IsLine(s) then s.line.p1
    else SectionArc.CirclePoint(m, s.arc.center, s.arc.radius, s.arc.startAngle)
  }

  function EndPoint(m: Libm, s: Segment): (r: Point)
    ensures IsLine(s) ==> r == s.line.p2
    ensures IsArc(s) ==> r == SectionArc.CirclePoint(m, s.arc.center, s.arc.radius, s.arc.endAngle)
  {
    if IsLine(s) then s.line.p2
    else SectionArc.CirclePoint(m, s.arc.center, s.arc.radius, s.arc.endAngle)
  }

  /** Exactly one of the two type guards holds. */
  lemma GuardsExclusive(s: Segment)
    ensures IsLine(s) != IsArc(s)
  {
  }

  /**
   * An arc's polyline, sampled with a whole number of segments, starts at
   * the arc's start point and ends at its end point.
   */
  lemma ArcPolylineEnds(m: Libm, a: SectionArc.Arc, n: int)
    requires 0 < n
    ensures SectionArc.CirclePoint(m, a.center, a.radius, SectionArc.SampleAngle(a, n as real, 0)) == StartPoint(m, ArcSegment(a))
    ensures SectionArc.CirclePoint(m, a.center, a.radius, SectionArc.SampleAngle(a, n as real, n)) == EndPoint(m, ArcSegment(a))
  {
    SectionArc.SampleAngleEnds(a, n);
  }
}

module SectionContour {
  import opened JsMath
  import opened SectionPoint
  import SectionArc
  import opened SectionSegment

  /** A contour; `make(segments)` is this constructor. */
  datatype Contour = Contour(segments: seq<Segment>)

  /** `isClosed`: there is a segment, and the first one starts where the last one ends. */
  predicate IsClosed(m: Libm, c: Contour, tolerance: real)
  {
    |c.segments| > 0 &&
    Equals(StartPoint(m, c.segments[0]), EndPoint(m, c.segments[|c.segments| - 1]), tolerance)
  }

  lemma IsClosedProperties(m: Libm, c: Contour, tolerance: real, wider: real)
    ensures c.segments == [] ==> !IsClosed(m, c, tolerance)
    ensures tolerance <= wider && IsClosed(m, c, tolerance) ==> IsClosed(m, c, wider)
  {
  }

  /** The sum of the segment lengths, added from the first segment on. */
  function SumLengths(m: Libm, segs: seq<Segment>): real
  {
    if segs == [] then 0.0 else SumLengths(m, segs[..|segs| - 1]) + SectionSegment.Length(m, segs[|segs| - 1])
  }

  /** `length`. */
  function Length(m: Libm, c: Contour): real
  {
    SumLengths(m, c.segments)
  }

  /** The length of two joined segment lists is the sum of their lengths. */
  lemma {:induction false} SumLengthsAppend(m: Libm, s: seq<Segment>, t: seq<Segment>)
    ensures SumLengths(m, s + t) == SumLengths(m, s) + SumLengths(m, t)
    decreases |t|
  {
    if t != [] {
      assert (s + t)[..|s + t| - 1] == s + t[..|t| - 1];
      SumLengthsAppend(m, s, t[..|t| - 1]);
    } else {
      assert s + t == s;
    }
  }

  /** An empty contour has length zero; with proper radii no contour has a negative length. */
  lemma {:induction false} LengthNonNeg(m: Libm, segs: seq<Segment>)
    requires SqrtLaw(m)
    requires forall i :: 0 <= i < |segs| && IsArc(segs[i]) ==> 0.0 <= segs[i].arc.radius
    ensures segs == [] ==> SumLengths(m, segs) == 0.0
    ensures 0.0 <= SumLengths(m, segs)
  {
    if segs != [] {
      LengthNonNeg(m, segs[..|segs| - 1]);
    }
  }

  // ---------------------------------------------------------------------
  // Bounding box

  /** Bounds that may still be the +-Infinity start values. */
  datatype Box = Box(minY: Ext, minZ: Ext, maxY: Ext, maxZ: Ext)

  const EMPTY_BOX: Box := Box(PosInf, PosInf, NegInf, NegInf)

  /** The `update` closure: widen the bounds to include p. */
  function Include(b: Box, p: Point): Box
  {
    Box(ExtMin(b.minY, Fin(p.y)), ExtMin(b.minZ, Fin(p.z)), ExtMax(b.maxY, Fin(p.y)), ExtMax(b.maxZ, Fin(p.z)))
  }

  /** The bounds after feeding the points in order to `update`. */
  function BoxOf(ps: seq<Point>): Box
  {
    if ps == [] then EMPTY_BOX else Include(BoxOf(ps[..|ps| - 1]), ps[|ps| - 1])
  }

  lemma BoxOfSnoc(ps: seq<Point>, p: Point)
    ensures BoxOf(ps + [p]) == Include(BoxOf(ps), p)
  {
    assert (ps + [p])[..|ps|] == ps;
  }

  /** p lies inside the box, componentwise. */
  predicate Inside(b: Box, p: Point)
  {
    ExtLe(b.minY, Fin(p.y)) && ExtLe(Fin(p.y), b.maxY) && ExtLe(b.minZ, Fin(p.z)) && ExtLe(Fin(p.z), b.maxZ)
  }

  /**
   * The box of the fed points holds each of them and each of its bounds is a
   * coordinate of one of them; no points leave the infinite start values.
   */
  lemma {:induction false} BoxOfTight(ps: seq<Point>)
    ensures ps == [] ==> BoxOf(ps) == EMPTY_BOX
    ensures forall i :: 0 <= i < |ps| ==> Inside(BoxOf(ps), ps[i])
    ensures ps != [] ==>
      (exists i :: 0 <= i < |ps| && BoxOf(ps).minY == Fin(ps[i].y)) &&
      (exists i :: 0 <= i < |ps| && BoxOf(ps).minZ == Fin(ps[i].z)) &&
      (exists i :: 0 <= i < |ps| && BoxOf(ps).maxY == Fin(ps[i].y)) &&
      (exists i :: 0 <= i < |ps| && BoxOf(ps).maxZ == Fin(ps[i].z))
  {
    if ps != [] {
      var qs := ps[..|ps| - 1];
      BoxOfTight(qs);
      var b, p := BoxOf(qs), ps[|ps| - 1];
      forall i | 0 <= i < |ps| ensures Inside(BoxOf(ps), ps[i]) {
        if i < |qs| {
          assert ps[i] == qs[i];
          ExtLeTrans(BoxOf(ps).minY, b.minY, Fin(ps[i].y));
          ExtLeTrans(BoxOf(ps).minZ, b.minZ, Fin(ps[i].z));
          ExtLeTrans(Fin(ps[i].y), b.maxY, BoxOf(ps).maxY);
          ExtLeTrans(Fin(ps[i].z), b.maxZ, BoxOf(ps).maxZ);
        }
      }
      if qs != [] {
        var i1 :| 0 <= i1 < |qs| && b.minY == Fin(qs[i1].y);
        var i2 :| 0 <= i2 < |qs| && b.minZ == Fin(qs[i2].z);
        var i3 :| 0 <= i3 < |qs| && b.maxY == Fin(qs[i3].y);
        var i4 :| 0 <= i4 < |qs| && b.maxZ == Fin(qs[i4].z);
        assert ps[i1] == qs[i1] && ps[i2] == qs[i2] && ps[i3] == qs[i3] && ps[i4] == qs[i4];
      }
    }
  }

  /** The four axis directions, where a circle has its extreme coordinates. */
  const AXIS_ANGLES: seq<real> := [0.0, PI / 2.0, PI, 3.0 * PI / 2.0]

  /** Whether the arc's angle range [min, max] holds the angle. */
  predicate OnArc(a: SectionArc.Arc, angle: real)
  {
    Min(a.startAngle, a.endAngle) <= angle <= Max(a.startAngle, a.endAngle)
  }

  /** The circle points at axis + m * 2PI, for the first j of m = -2, ..., 2, that lie on the arc. */
  function TurnExtremes(m: Libm, a: SectionArc.Arc, axis: real, j: int): seq<Point>
    requires 0 <= j <= 5
  {
    if j == 0 then []
    else
      var angle := axis + Turns(j - 3);
      TurnExtremes(m, a, axis, j - 1) +
        if OnArc(a, angle) then [SectionArc.CirclePoint(m, a.center, a.radius, angle)] else []
  }

  /** The extreme points fed for the first i axis angles. */
  function ArcExtremes(m: Libm, a: SectionArc.Arc, i: int): seq<Point>
    requires 0 <= i <= |AXIS_ANGLES|
  {
    if i == 0 then [] else ArcExtremes(m, a, i - 1) + TurnExtremes(m, a, AXIS_ANGLES[i - 1], 5)
  }

  /** The points one segment feeds to `update`: a line's endpoints, an arc's endpoints and extremes. */
  function SegmentFeed(m: Libm, s: Segment): seq<Point>
  {
    if IsLine(s) then [s.line.p1, s.line.p2]
    else [StartPoint(m, s), EndPoint(m, s)] + ArcExtremes(m, s.arc, |AXIS_ANGLES|)
  }

  /** The points the whole contour feeds to `update`, in order. */
  function Feed(m: Libm, segs: seq<Segment>): seq<Point>
  {
    if segs == [] then [] else Feed(m, segs[..|segs| - 1]) + SegmentFeed(m, segs[|segs| - 1])
  }

  lemma ArcExtremesStep(m: Libm, a: SectionArc.Arc, i: int, fed0: seq<Point>)
    requires 0 <= i < |AXIS_ANGLES|
    ensures fed0 + ArcExtremes(m, a, i) + TurnExtremes(m, a, AXIS_ANGLES[i], 5) == fed0 + ArcExtremes(m, a, i + 1)
  {
  }

  /** The inner loops of `boundingBox`: feed the arc's circle points at the axis angles that lie on it. */
  method IncludeArcExtremes(m: Libm, a: SectionArc.Arc, box0: Box, ghost fed0: seq<Point>) returns (box: Box)
    requires box0 == BoxOf(fed0)
    ensures box == BoxOf(fed0 + ArcExtremes(m, a, |AXIS_ANGLES|))
  {
    box := box0;
    ghost var fed := fed0;
    var ai := 0;
    while ai < |AXIS_ANGLES|
      invariant 0 <= ai <= |AXIS_ANGLES|
      invariant fed == fed0 + ArcExtremes(m, a, ai)
      invariant box == BoxOf(fed)
    {
      box := IncludeAxisTurns(m, a, AXIS_ANGLES[ai], box, fed);
      ArcExtremesStep(m, a, ai, fed0);
      fed := fed + TurnExtremes(m, a, AXIS_ANGLES[ai], 5);
      ai := ai + 1;
    }
  }

  /** The innermost loop of `boundingBox`: one axis angle shifted by -2 to 2 whole turns. */
  method IncludeAxisTurns(m: Libm, a: SectionArc.Arc, axis: real, box0: Box, ghost fed0: seq<Point>) returns (box: Box)
    requires box0 == BoxOf(fed0)
    ensures box == BoxOf(fed0 + TurnExtremes(m, a, axis, 5))
  {
    box := box0;
    ghost var fed := fed0;
    var s := Min(a.startAngle, a.endAngle);
    var e := Max(a.startAngle, a.endAngle);
    var turn := -2;
    while turn <= 2
      invariant -2 <= turn <= 3
      invariant fed == fed0 + TurnExtremes(m, a, axis, turn + 2)
      invariant box == BoxOf(fed)
    {
      var angle := axis + Turns(turn);
      TurnStep(m, a, axis, turn, fed0, fed);
      assert OnArc(a, angle) <==> angle >= s && angle <= e;
      if angle >= s && angle <= e {
        var q := SectionArc.CirclePoint(m, a.center, a.radius, angle);
        BoxOfSnoc(fed, q);
        fed := fed + [q];
        box := Include(box, q);
      }
      turn := turn + 1;
    }
  }

  /** One more turn appends its circle point when that point lies on the arc. */
  lemma TurnStep(m: Libm, a: SectionArc.Arc, axis: real, turn: int, fed0: seq<Point>, fed: seq<Point>)
    requires -2 <= turn <= 2 && fed == fed0 + TurnExtremes(m, a, axis, turn + 2)
    ensures OnArc(a, axis + Turns(turn)) ==>
      fed0 + TurnExtremes(m, a, axis, turn + 3) == fed + [SectionArc.CirclePoint(m, a.center, a.radius, axis + Turns(turn))]
    ensures !OnArc(a, axis + Turns(turn)) ==> fed0 + TurnExtremes(m, a, axis, turn + 3) == fed
  {
    var angle := axis + Turns(turn);
    var tail: seq<Point> := if OnArc(a, angle) then [SectionArc.CirclePoint(m, a.center, a.radius, angle)] else [];
    assert TurnExtremes(m, a, axis, turn + 3) == TurnExtremes(m, a, axis, turn + 2) + tail;
    assert fed0 + (TurnExtremes(m, a, axis, turn + 2) + tail) == fed0 + TurnExtremes(m, a, axis, turn + 2) + tail;
    assert fed + [] == fed;
  }

  lemma FeedStep(m: Libm, segs: seq<Segment>, i: int)
    requires 0 <= i < |segs|
    ensures Feed(m, segs[..i + 1]) == Feed(m, segs[..i]) + SegmentFeed(m, segs[i])
  {
    assert segs[..i + 1][..i] == segs[..i];
  }

  lemma AppendThree(fed0: seq<Point>, a: Point, b: Point, rest: seq<Point>)
    ensures fed0 + [a] + [b] + rest == fed0 + ([a, b] + rest)
  {
  }

  /** The body of `boundingBox`'s loop: feed one segment's points. */
  method IncludeSegment(m: Libm, seg: Segment, box0: Box, ghost fed0: seq<Point>) returns (box: Box)
    requires box0 == BoxOf(fed0)
    ensures box == BoxOf(fed0 + SegmentFeed(m, seg))
  {
    var first, second := if IsLine(seg) then seg.line.p1 else StartPoint(m, seg),
                         if IsLine(seg) then seg.line.p2 else EndPoint(m, seg);
    BoxOfSnoc(fed0, first);
    BoxOfSnoc(fed0 + [first], second);
    box := Include(Include(box0, first), second);
    ghost var rest: seq<Point> := if IsLine(seg) then [] else ArcExtremes(m, seg.arc, |AXIS_ANGLES|);
    assert SegmentFeed(m, seg) == [first, second] + rest;
    AppendThree(fed0, first, second, rest);
    if !IsLine(seg) {
      box := IncludeArcExtremes(m, seg.arc, box, fed0 + [first] + [second]);
    } else {
      assert fed0 + [first] + [second] + rest == fed0 + [first] + [second];
    }
  }

  /** `boundingBox`. */
  method BoundingBox(m: Libm, c: Contour) returns (box: Box)
    ensures box == BoxOf(Feed(m, c.segments))
  {
    var segs := c.segments;
    box := EMPTY_BOX;
    ghost var fed: seq<Point> := [];
    var i := 0;
    while i < |segs|
      invariant 0 <= i <= |segs|
      invariant fed == Feed(m, segs[..i])
      invariant box == BoxOf(fed)
    {
      FeedStep(m, segs, i);
      box := IncludeSegment(m, segs[i], box, fed);
      fed := fed + SegmentFeed(m, segs[i]);
      i := i + 1;
    }
    assert segs[..i] == segs;
  }

  /** Every segment's start and end point is among the points fed to `update`. */
  lemma {:induction false} FeedHasEndpoints(m: Libm, segs: seq<Segment>, i: int)
    requires 0 <= i < |segs|
    ensures StartPoint(m, segs[i]) in Feed(m, segs) && EndPoint(m, segs[i]) in Feed(m, segs)
  {
    var last := |segs| - 1;
    if i < last {
      FeedHasEndpoints(m, segs[..last], i);
    } else {
      assert SegmentFeed(m, segs[i])[0] == StartPoint(m, segs[i]);
      assert SegmentFeed(m, segs[i])[1] == EndPoint(m, segs[i]);
    }
  }

  /**
   * The box holds every segment's start and end point, each bound is
   * attained by a fed point, a non-empty contour gives min <= max, and an
   * empty one keeps the infinite start values.
   */
  lemma BoundingBoxProperties(m: Libm, c: Contour)
    ensures c.segments == [] ==> BoxOf(Feed(m, c.segments)) == EMPTY_BOX
    ensures forall i :: 0 <= i < |c.segments| ==>
      Inside(BoxOf(Feed(m, c.segments)), StartPoint(m, c.segments[i])) &&
      Inside(BoxOf(Feed(m, c.segments)), EndPoint(m, c.segments[i]))
    ensures c.segments != [] ==>
      ExtLe(BoxOf(Feed(m, c.segments)).minY, BoxOf(Feed(m, c.segments)).maxY) &&
      ExtLe(BoxOf(Feed(m, c.segments)).minZ, BoxOf(Feed(m, c.segments)).maxZ)
  {
    var ps := Feed(m, c.segments);
    BoxOfTight(ps);
    forall i | 0 <= i < |c.segments|
      ensures Inside(BoxOf(ps), StartPoint(m, c.segments[i])) && Inside(BoxOf(ps), EndPoint(m, c.segments[i]))
    {
      FeedHasEndpoints(m, c.segments, i);
    }
    if c.segments != [] {
      FeedHasEndpoints(m, c.segments, 0);
      var p := StartPoint(m, c.segments[0]);
      ExtLeTrans(BoxOf(ps).minY, Fin(p.y), BoxOf(ps).maxY);
      ExtLeTrans(BoxOf(ps).minZ, Fin(p.z), BoxOf(ps).maxZ);
    }
  }
}
