// Line segments of the 2D geometry kernel: measures, intersection of the
// carrying lines and of the segments, closest points and transforms.

module GeoLine {
  import opened Wrappers
  import opened JsMath
  import opened GeoTypes
  import opened GeoErrors
  import GeoPoint
  import GeoVector

  datatype Line = Line(p1: Point, p2: Point)

  function Length(m: Libm, l: Line): real
  {
    GeoPoint.Distance(m, l.p1, l.p2)
  }

  function Midpoint(l: Line): Point
  {
    Point((l.p1.x + l.p2.x) / 2.0, (l.p1.y + l.p2.y) / 2.0)
  }

  /** The midpoint is the point halfway along the segment and is equally far from both ends. */
  lemma MidpointProperties(l: Line)
    ensures Midpoint(l) == Along(l.p1, l.p2, 0.5)
    ensures SqDist(Midpoint(l), l.p1) == SqDist(Midpoint(l), l.p2)
  {
    var c := Midpoint(l);
    assert l.p1.x - c.x == -(l.p2.x - c.x);
    assert l.p1.y - c.y == -(l.p2.y - c.y);
    SqNeg(l.p2.x - c.x);
    SqNeg(l.p2.y - c.y);
  }

  function Direction(m: Libm, l: Line): Result<Vector, GeoError>
  {
    GeoVector.Normalize(m, GeoVector.FromPoints(l.p1, l.p2))
  }

  function NormalVector(m: Libm, l: Line): Result<Vector, GeoError>
  {
    match Direction(m, l)
    case Err(e) => Err(e)
    case Ok(d) => Ok(GeoVector.Perpendicular(d))
  }

  /** Moves p1 back by startDelta and p2 forward by endDelta along the direction. */
  function Extend(m: Libm, l: Line, startDelta: real, endDelta: real): Result<Line, GeoError>
  {
    match Direction(m, l)
    case Err(e) => Err(e)
    case Ok(d) =>
      Ok(Line(GeoPoint.Translate(l.p1, GeoVector.Scale(d, -startDelta)),
              GeoPoint.Translate(l.p2, GeoVector.Scale(d, endDelta))))
  }

  /**
   * An extended line stays on the line through p1 and p2, keeps its direction,
   * and is startDelta + endDelta longer.
   */
  lemma ExtendAlongLine(m: Libm, l: Line, startDelta: real, endDelta: real)
    requires Extend(m, l, startDelta, endDelta).Ok?
    ensures var v := GeoVector.FromPoints(l.p1, l.p2);
      var e := Extend(m, l, startDelta, endDelta).value;
      GeoVector.Cross(v, GeoVector.FromPoints(l.p1, e.p1)) == 0.0 &&
      GeoVector.Cross(v, GeoVector.FromPoints(l.p1, e.p2)) == 0.0
    ensures GeoVector.FromPoints(Extend(m, l, startDelta, endDelta).value.p1,
                                 Extend(m, l, startDelta, endDelta).value.p2)
      == GeoVector.Scale(Direction(m, l).value, Length(m, l) + startDelta + endDelta)
  {
    var v := GeoVector.FromPoints(l.p1, l.p2);
    var len := GeoVector.Length(m, v);
    var d := Direction(m, l).value;
    var e := Extend(m, l, startDelta, endDelta).value;
    assert len != 0.0;
    assert d.dx * len == v.dx && d.dy * len == v.dy;
    assert v.dx * d.dy == v.dy * d.dx by {
      calc {
        v.dx * d.dy;
        (d.dx * len) * d.dy;
        (d.dy * len) * d.dx;
        v.dy * d.dx;
      }
    }
    assert e.p1.x - l.p1.x == d.dx * -startDelta && e.p1.y - l.p1.y == d.dy * -startDelta;
    assert e.p2.x - l.p1.x == v.dx + d.dx * endDelta && e.p2.y - l.p1.y == v.dy + d.dy * endDelta;
    assert v.dx * (d.dy * -startDelta) - v.dy * (d.dx * -startDelta)
      == -startDelta * (v.dx * d.dy - v.dy * d.dx);
    assert v.dx * (v.dy + d.dy * endDelta) - v.dy * (v.dx + d.dx * endDelta)
      == endDelta * (v.dx * d.dy - v.dy * d.dx);
    assert e.p2.x - e.p1.x == d.dx * (len + startDelta + endDelta);
    assert e.p2.y - e.p1.y == d.dy * (len + startDelta + endDelta);
  }

  function Parallel(m: Libm, l: Line, distance: real): Result<Line, GeoError>
  {
    match NormalVector(m, l)
    case Err(e) => Err(e)
    case Ok(n) => Ok(Translate(l, GeoVector.Scale(n, distance)))
  }

  /** A parallel keeps the direction vector of the line; only a degenerate line fails. */
  lemma ParallelSameDirection(m: Libm, l: Line, distance: real)
    ensures Parallel(m, l, distance).Err? <==> Direction(m, l).Err?
    ensures Parallel(m, l, distance).Ok? ==>
      GeoVector.FromPoints(Parallel(m, l, distance).value.p1, Parallel(m, l, distance).value.p2)
        == GeoVector.FromPoints(l.p1, l.p2)
  {
  }

  function Split(l: Line, point: Point): (Line, Line)
  {
    (Line(l.p1, point), Line(point, l.p2))
  }

  /**
   * The two halves meet at the split point and rejoin to the line; over exact
   * reals their lengths add up when the point lies on the segment.
   */
  lemma SplitRejoins(m: Libm, l: Line, s: real)
    requires SqrtLaw(m) && 0.0 <= s <= 1.0
    ensures Split(l, Along(l.p1, l.p2, s)).0.p2 == Split(l, Along(l.p1, l.p2, s)).1.p1
    ensures Line(Split(l, Along(l.p1, l.p2, s)).0.p1, Split(l, Along(l.p1, l.p2, s)).1.p2) == l
    ensures Length(m, Split(l, Along(l.p1, l.p2, s)).0) + Length(m, Split(l, Along(l.p1, l.p2, s)).1)
         == Length(m, l)
  {
    var p := Along(l.p1, l.p2, s);
    AlongLength(m, l.p1, l.p2, s);
    assert Along(l.p2, l.p1, 1.0 - s) == p;
    AlongLength(m, l.p2, l.p1, 1.0 - s);
    SqDistSymmetric(l.p1, l.p2);
    SqDistSymmetric(p, l.p2);
  }

  /** The distance from a to the point at parameter s in [0, 1] is s times |ab|. */
  lemma AlongLength(m: Libm, a: Point, b: Point, s: real)
    requires SqrtLaw(m) && 0.0 <= s
    ensures GeoPoint.Distance(m, a, Along(a, b, s)) == Mul(s, GeoPoint.Distance(m, a, b))
  {
    var dx, dy := b.x - a.x, b.y - a.y;
    var q := Along(a, b, s);
    assert q.x - a.x == Mul(s, dx);
    assert q.y - a.y == Mul(s, dy);
    ScaledSquare(s, dx);
    ScaledSquare(s, dy);
    MulAddRight(Sq(s), Sq(dx), Sq(dy));
    var d := GeoPoint.Distance(m, a, b);
    assert Sq(d) == SqDist(a, b);
    ScaledSquare(s, d);
    MulNonNeg(s, d);
    SquareInjective(GeoPoint.Distance(m, a, q), Mul(s, d));
  }

  lemma ScaledSquare(s: real, d: real)
    ensures Sq(Mul(s, d)) == Mul(Sq(s), Sq(d))
  {
  }

  function ClosestPoint(l: Line, p: Point): Point
  {
    ClosestPointOnSegment(l.p1, l.p2, p)
  }

  function DistanceToPoint(m: Libm, l: Line, p: Point): real
  {
    GeoPoint.Distance(m, p, ClosestPoint(l, p))
  }

  /** The closest point lies on the segment and is no farther than either end. */
  lemma ClosestPointBounds(m: Libm, l: Line, p: Point)
    requires SqrtLaw(m)
    ensures exists s :: 0.0 <= s <= 1.0 && ClosestPoint(l, p) == Along(l.p1, l.p2, s)
    ensures DistanceToPoint(m, l, p) <= GeoPoint.Distance(m, p, l.p1)
    ensures DistanceToPoint(m, l, p) <= GeoPoint.Distance(m, p, l.p2)
  {
    ClosestPointOnSegmentOnSegment(l.p1, l.p2, p);
    ClosestPointOnSegmentIsClosest(l.p1, l.p2, p, 0.0);
    ClosestPointOnSegmentIsClosest(l.p1, l.p2, p, 1.0);
    assert Along(l.p1, l.p2, 0.0) == l.p1;
    assert Along(l.p1, l.p2, 1.0) == l.p2;
    var c := ClosestPoint(l, p);
    SqrtMonotone(m, SqDist(p, c), SqDist(p, l.p1));
    SqrtMonotone(m, SqDist(p, c), SqDist(p, l.p2));
  }

  /** The determinant of the two direction vectors. */
  function Denominator(a: Line, b: Line): real
  {
    GeoVector.Cross(GeoVector.FromPoints(a.p1, a.p2), GeoVector.FromPoints(b.p1, b.p2))
  }

  /** The parameter of the crossing point along a. */
  function ParamA(a: Line, b: Line): real
    requires Denominator(a, b) != 0.0
  {
    GeoVector.Cross(GeoVector.FromPoints(a.p1, b.p1), GeoVector.FromPoints(b.p1, b.p2)) / Denominator(a, b)
  }

  /** The parameter of the crossing point along b. */
  function ParamB(a: Line, b: Line): real
    requires Denominator(a, b) != 0.0
  {
    GeoVector.Cross(GeoVector.FromPoints(a.p1, b.p1), GeoVector.FromPoints(a.p1, a.p2)) / Denominator(a, b)
  }

  /** Intersection of the infinite carrying lines; none when they are (nearly) parallel. */
  function Intersect(a: Line, b: Line): (r: Option<Point>)
    ensures r.None? <==> Abs(Denominator(a, b)) < TOL
  {
    if Abs(Denominator(a, b)) < TOL then None
    else Some(Along(a.p1, a.p2, ParamA(a, b)))
  }

  /** Intersection of the two segments: both parameters must lie in [0, 1]. */
  function IntersectSegment(a: Line, b: Line): (r: Option<Point>)
    ensures r.Some? ==> r == Intersect(a, b)
    ensures r.Some? <==>
      (Abs(Denominator(a, b)) >= TOL && 0.0 <= ParamA(a, b) <= 1.0 && 0.0 <= ParamB(a, b) <= 1.0)
  {
    if Abs(Denominator(a, b)) < TOL then None
    else
      var t, u := ParamA(a, b), ParamB(a, b);
      if t < 0.0 || t > 1.0 || u < 0.0 || u > 1.0 then None
      else Some(Along(a.p1, a.p2, t))
  }

  lemma CrossAlongSelf(t: real, d: Vector)
    ensures GeoVector.Cross(Vector(Mul(t, d.dx), Mul(t, d.dy)), d) == 0.0
  {
  }

  lemma CrossShifted(w: Vector, t: real, v: Vector, d: Vector)
    ensures GeoVector.Cross(Vector(-w.dx + Mul(t, v.dx), -w.dy + Mul(t, v.dy)), d)
         == Mul(t, GeoVector.Cross(v, d)) - GeoVector.Cross(w, d)
  {
  }

  /** Over exact reals an intersection point lies on both carrying lines. */
  lemma IntersectOnBothLines(a: Line, b: Line)
    requires Intersect(a, b).Some?
    ensures GeoVector.Cross(GeoVector.FromPoints(a.p1, Intersect(a, b).value), GeoVector.FromPoints(a.p1, a.p2)) == 0.0
    ensures GeoVector.Cross(GeoVector.FromPoints(b.p1, Intersect(a, b).value), GeoVector.FromPoints(b.p1, b.p2)) == 0.0
  {
    var d1, d2 := GeoVector.FromPoints(a.p1, a.p2), GeoVector.FromPoints(b.p1, b.p2);
    var w := GeoVector.FromPoints(a.p1, b.p1);
    var t := ParamA(a, b);
    var r := Along(a.p1, a.p2, t);
    assert GeoVector.FromPoints(a.p1, r) == Vector(Mul(t, d1.dx), Mul(t, d1.dy));
    CrossAlongSelf(t, d1);
    assert GeoVector.FromPoints(b.p1, r) == Vector(-w.dx + Mul(t, d1.dx), -w.dy + Mul(t, d1.dy));
    CrossShifted(w, t, d1, d2);
    MulDivCancel(GeoVector.Cross(w, d2), Denominator(a, b));
  }

  /** `isParallel`: the directions' cross product is below the tolerance. */
  function IsParallel(m: Libm, a: Line, b: Line, tolerance: real): Result<bool, GeoError>
  {
    match (Direction(m, a), Direction(m, b))
    case (Err(e), _) => Err(e)
    case (_, Err(e)) => Err(e)
    case (Ok(da), Ok(db)) => Ok(Abs(GeoVector.Cross(da, db)) < tolerance)
  }

  /** `isPerpendicular`: the directions' dot product is below the tolerance. */
  function IsPerpendicular(m: Libm, a: Line, b: Line, tolerance: real): Result<bool, GeoError>
  {
    match (Direction(m, a), Direction(m, b))
    case (Err(e), _) => Err(e)
    case (_, Err(e)) => Err(e)
    case (Ok(da), Ok(db)) => Ok(Abs(GeoVector.Dot(da, db)) < tolerance)
  }

  lemma ParallelPerpendicularSymmetric(m: Libm, a: Line, b: Line, tolerance: real)
    ensures IsParallel(m, a, b, tolerance).Ok? <==> IsParallel(m, b, a, tolerance).Ok?
    ensures IsParallel(m, a, b, tolerance).Ok? ==> IsParallel(m, a, b, tolerance) == IsParallel(m, b, a, tolerance)
    ensures IsPerpendicular(m, a, b, tolerance).Ok? ==>
      IsPerpendicular(m, a, b, tolerance) == IsPerpendicular(m, b, a, tolerance)
  {
  }

  /** The angle between the directions, `acos` of their clamped dot product. */
  function Angle(m: Libm, a: Line, b: Line): Result<real, GeoError>
  {
    match (Direction(m, a), Direction(m, b))
    case (Err(e), _) => Err(e)
    case (_, Err(e)) => Err(e)
    case (Ok(da), Ok(db)) => Ok(m.acos(Clamp(-1.0, 1.0, GeoVector.Dot(da, db))))
  }

  function Translate(l: Line, v: Vector): Line
  {
    Line(GeoPoint.Translate(l.p1, v), GeoPoint.Translate(l.p2, v))
  }

  lemma TranslateKeepsLength(m: Libm, l: Line, v: Vector)
    ensures Length(m, Translate(l, v)) == Length(m, l)
  {
    var t := Translate(l, v);
    assert t.p2.x - t.p1.x == l.p2.x - l.p1.x;
    assert t.p2.y - t.p1.y == l.p2.y - l.p1.y;
  }

  function Rotate(m: Libm, l: Line, angle: real, origin: Point): Line
  {
    Line(GeoPoint.Rotate(m, l.p1, angle, origin), GeoPoint.Rotate(m, l.p2, angle, origin))
  }

  function Mirror(l: Line, a1: Point, a2: Point): (r: Result<Line, GeoError>)
    ensures r.Err? <==> SqDist(a1, a2) < TOL_SQ
  {
    match (GeoPoint.Mirror(l.p1, a1, a2), GeoPoint.Mirror(l.p2, a1, a2))
    case (Err(e), _) => Err(e)
    case (_, Err(e)) => Err(e)
    case (Ok(q1), Ok(q2)) => Ok(Line(q1, q2))
  }

  lemma MirrorInvolution(l: Line, a1: Point, a2: Point)
    requires TOL_SQ <= SqDist(a1, a2)
    ensures Mirror(l, a1, a2).Ok? && Mirror(Mirror(l, a1, a2).value, a1, a2) == Ok(l)
  {
    GeoPoint.MirrorInvolution(l.p1, a1, a2);
    GeoPoint.MirrorInvolution(l.p2, a1, a2);
  }

  /** The point list of a chain of lines: the first start, then every end. */
  function ChainPoints(lines: seq<Line>): (r: seq<Point>)
    ensures |r| == if lines == [] then 0 else |lines| + 1
    ensures lines != [] ==> r[0] == lines[0].p1
    ensures forall i :: 0 <= i < |lines| ==> r[i + 1] == lines[i].p2
  {
    if lines == [] then []
    else [lines[0].p1] + seq(|lines|, i requires 0 <= i < |lines| => lines[i].p2)
  }

  /** Each of the first k lines starts where the previous one ends, within the default tolerance. */
  predicate ConnectedUpTo(lines: seq<Line>, k: int)
    requires k <= |lines|
  {
    forall i :: 1 <= i < k ==> GeoPoint.Equals(lines[i - 1].p2, lines[i].p1, GeoPoint.EQUALS_TOL)
  }

  /**
   * The loop shared by `Polyline.fromLines` and `Polygon.fromLines`: collects
   * the chain's points and fails with the index of the line before the first
   * break.
   */
  method ChainLines(lines: seq<Line>) returns (r: Result<seq<Point>, GeoError>)
    requires lines != []
    ensures r.Ok? <==> ConnectedUpTo(lines, |lines|)
    ensures r.Ok? ==> r.value == ChainPoints(lines)
    ensures r.Err? ==> exists j :: (1 <= j < |lines| && r.error == DiscontinuousLines(j - 1) &&
      ConnectedUpTo(lines, j) && !GeoPoint.Equals(lines[j - 1].p2, lines[j].p1, GeoPoint.EQUALS_TOL))
  {
    ghost var chain := ChainPoints(lines);
    var points := [lines[0].p1];
    var i := 0;
    while i < |lines|
      invariant 0 <= i <= |lines|
      invariant ConnectedUpTo(lines, i)
      invariant points == chain[..i + 1]
    {
      assert i > 0 ==> points[|points| - 1] == lines[i - 1].p2;
      if i > 0 && !GeoPoint.Equals(points[|points| - 1], lines[i].p1, GeoPoint.EQUALS_TOL) {
        assert points[i] == lines[i - 1].p2;
        r := Err(DiscontinuousLines(i - 1));
        assert 1 <= i < |lines| && r.error == DiscontinuousLines(i - 1);
        return;
      }
      ChainPrefixStep(lines, i);
      ConnectedExtend(lines, i);
      points := points + [lines[i].p2];
      i := i + 1;
    }
    assert chain[..|lines| + 1] == chain;
    r := Ok(points);
  }

  lemma ConnectedExtend(lines: seq<Line>, i: nat)
    requires i < |lines| && ConnectedUpTo(lines, i)
    requires i > 0 ==> GeoPoint.Equals(lines[i - 1].p2, lines[i].p1, GeoPoint.EQUALS_TOL)
    ensures ConnectedUpTo(lines, i + 1)
  {
  }

  /** One more line adds its end to the chain's prefix. */
  lemma ChainPrefixStep(lines: seq<Line>, i: nat)
    requires i < |lines|
    ensures ChainPoints(lines)[..i + 1] + [lines[i].p2] == ChainPoints(lines)[..i + 2]
  {
  }
}
