// The value types of the 2D geometry kernel and the helpers they share:
// projection of a point onto a segment, angle normalisation, the sweep of an
// arc and the angle-in-arc test.

module GeoTypes {
  import opened JsMath

  datatype Point = Point(x: real, y: real)

  datatype Vector = Vector(dx: real, dy: real)

  /** An axis-aligned box whose bounds may still be the +-Infinity start values. */
  datatype ExtBox = ExtBox(minX: Ext, minY: Ext, maxX: Ext, maxY: Ext)

  /** The squared Euclidean distance between two points. */
  function SqDist(a: Point, b: Point): (r: real)
    ensures 0.0 <= r
  {
    SquareNonNeg(b.x - a.x);
    SquareNonNeg(b.y - a.y);
    Sq(b.x - a.x) + Sq(b.y - a.y)
  }

  lemma SqDistPos(a: Point, b: Point)
    requires a != b
    ensures 0.0 < SqDist(a, b)
  {
    if b.x != a.x {
      SquarePos(b.x - a.x);
    } else {
      SquarePos(b.y - a.y);
    }
  }

  /** Only a point is at squared distance zero from itself. */
  lemma ZeroSqDist(a: Point, b: Point)
    requires SqDist(a, b) == 0.0
    ensures a == b
  {
    if a != b {
      SqDistPos(a, b);
    }
  }

  lemma SqDistSymmetric(a: Point, b: Point)
    ensures SqDist(a, b) == SqDist(b, a)
  {
    SqNeg(b.x - a.x);
    SqNeg(b.y - a.y);
  }

  /** The point a + t * (b - a) of the line through a and b. */
  function Along(a: Point, b: Point, t: real): Point
  {
    Point(a.x + Mul(t, b.x - a.x), a.y + Mul(t, b.y - a.y))
  }

  /** The dot product of p - p1 with p2 - p1. */
  function Projection(p1: Point, p2: Point, p: Point): real
  {
    Mul(p.x - p1.x, p2.x - p1.x) + Mul(p.y - p1.y, p2.y - p1.y)
  }

  /**
   * The point of segment p1-p2 nearest to p: the projection parameter is
   * clamped into [0, 1]; a segment of zero length yields p1.
   */
  function ClosestPointOnSegment(p1: Point, p2: Point, p: Point): (r: Point)
    ensures p1 == p2 ==> r == p1
  {
    var lenSq := SqDist(p1, p2);
    if lenSq == 0.0 then Point(p1.x, p1.y)
    else Along(p1, p2, Clamp(0.0, 1.0, Projection(p1, p2, p) / lenSq))
  }

  /** The clamped projection parameter used by ClosestPointOnSegment. */
  function SegmentParam(p1: Point, p2: Point, p: Point): real
  {
    if SqDist(p1, p2) == 0.0 then 0.0
    else Clamp(0.0, 1.0, Projection(p1, p2, p) / SqDist(p1, p2))
  }

  lemma ClosestPointOnSegmentOnSegment(p1: Point, p2: Point, p: Point)
    ensures 0.0 <= SegmentParam(p1, p2, p) <= 1.0
    ensures ClosestPointOnSegment(p1, p2, p) == Along(p1, p2, SegmentParam(p1, p2, p))
  {
  }

  /** One coordinate of GapIdentity: the squared offset from o of c + s * d against c + t * d. */
  lemma CoordinateGap(c: real, o: real, d: real, s: real, t: real)
    ensures Sq(c + Mul(s, d) - o) - Sq(c + Mul(t, d) - o)
         == Mul(s - t, Mul(s + t, Sq(d)) - 2.0 * Mul(o - c, d))
  {
    var e := c - o;
    var m1, m2 := s * d, t * d;
    var a1, a2 := e + m1, e + m2;
    assert Sq(c + Mul(s, d) - o) == a1 * a1;
    assert Sq(c + Mul(t, d) - o) == a2 * a2;
    var dd, ed := d * d, e * d;
    assert Mul(s + t, Sq(d)) == (s + t) * dd;
    assert Mul(o - c, d) == -ed;
    var g := (s + t) * dd + 2.0 * ed;
    assert a1 * a1 - a2 * a2 == (s - t) * g;
  }

  /**
   * How much farther from p the point at parameter s of the line through a
   * and b is than the point at parameter t.
   */
  lemma GapIdentity(p: Point, a: Point, b: Point, s: real, t: real)
    ensures SqDist(p, Along(a, b, s)) - SqDist(p, Along(a, b, t))
         == Mul(s - t, Mul(s + t, SqDist(a, b)) - 2.0 * Projection(a, b, p))
  {
    var dx, dy := b.x - a.x, b.y - a.y;
    CoordinateGap(a.x, p.x, dx, s, t);
    CoordinateGap(a.y, p.y, dy, s, t);
    MulAddRight(s + t, Sq(dx), Sq(dy));
    MulAddRight(s - t, Mul(s + t, Sq(dx)) - 2.0 * Mul(p.x - a.x, dx), Mul(s + t, Sq(dy)) - 2.0 * Mul(p.y - a.y, dy));
  }

  /** The clamped parameter is never beaten by another parameter of [0, 1]. */
  lemma GapNonNeg(k: real, l: real, s: real)
    requires 0.0 < l && 0.0 <= s <= 1.0
    ensures 0.0 <= Mul(s - Clamp(0.0, 1.0, k / l), Mul(s + Clamp(0.0, 1.0, k / l), l) - 2.0 * k)
  {
    var u := k / l;
    var t := Clamp(0.0, 1.0, u);
    var g := Mul(s + t, l) - 2.0 * k;
    var lu := l * u;
    assert lu == k;
    var st := (s + t - 2.0 * u) * l;
    assert g == st;
    if u < 0.0 {
      MulPos(s + t - 2.0 * u, l);
      MulNonNeg(s - t, g);
    } else if u > 1.0 {
      MulPos(2.0 * u - s - t, l);
      MulNonNeg(t - s, -g);
      var a, b := (s - t) * g, (t - s) * -g;
      assert a == b;
    } else {
      assert t == u;
      var e := (s - t) * (s - t);
      SquareNonNeg(s - t);
      var a := (s - t) * g;
      assert a == e * l;
      MulNonNeg(e, l);
    }
  }

  /**
   * Over exact reals no point of the segment is closer to p than
   * ClosestPointOnSegment.
   */
  lemma ClosestPointOnSegmentIsClosest(p1: Point, p2: Point, p: Point, s: real)
    requires 0.0 <= s <= 1.0
    ensures SqDist(p, ClosestPointOnSegment(p1, p2, p)) <= SqDist(p, Along(p1, p2, s))
  {
    if SqDist(p1, p2) != 0.0 {
      var t := Clamp(0.0, 1.0, Projection(p1, p2, p) / SqDist(p1, p2));
      GapIdentity(p, p1, p2, s, t);
      GapNonNeg(Projection(p1, p2, p), SqDist(p1, p2), s);
    } else {
      ZeroSqDist(p1, p2);
      assert Along(p1, p2, s) == p1;
    }
  }

  /** `((angle % 2PI) + 2PI) % 2PI` with JavaScript's truncating `%`. */
  function NormalizeAngle(angle: real): (r: real)
    ensures 0.0 <= r < TWO_PI
    ensures exists k :: r == angle + Turns(k)
  {
    JsRemBounds(angle, TWO_PI);
    JsRemBounds(JsRem(angle, TWO_PI) + TWO_PI, TWO_PI);
    var r := JsRem(JsRem(angle, TWO_PI) + TWO_PI, TWO_PI);
    assert r == angle + Turns(1 - Trunc(angle / TWO_PI) - Trunc((JsRem(angle, TWO_PI) + TWO_PI) / TWO_PI));
    r
  }

  /** Two angles of [0, 2PI) a whole number of turns apart are equal. */
  lemma SameTurnClass(r1: real, r2: real, k: int)
    requires 0.0 <= r1 < TWO_PI && 0.0 <= r2 < TWO_PI
    requires r1 == r2 + Turns(k)
    ensures r1 == r2
  {
    if k > 0 {
      assert false;
    } else if k < 0 {
      assert false;
    }
  }

  lemma {:induction false} NormalizeAnglePeriodic(angle: real, k: int)
    ensures NormalizeAngle(angle + Turns(k)) == NormalizeAngle(angle)
  {
    var r1 := NormalizeAngle(angle + Turns(k));
    var r2 := NormalizeAngle(angle);
    var k1 :| r1 == angle + Turns(k) + Turns(k1);
    var k2 :| r2 == angle + Turns(k2);
    SameTurnClass(r1, r2, k + k1 - k2);
  }

  lemma NormalizeAngleFixes(angle: real)
    requires 0.0 <= angle < TWO_PI
    ensures NormalizeAngle(angle) == angle
  {
    var r := NormalizeAngle(angle);
    var k :| r == angle + Turns(k);
    SameTurnClass(r, angle, k);
  }

  /**
   * Whether `angle` lies on the arc that starts at `startAngle` and runs
   * counter-clockwise through `sweep`, with tolerance `tol`.
   */
  predicate AngleInArc(angle: real, startAngle: real, sweep: real, tol: real)
  {
    if sweep >= TWO_PI - tol then true
    else NormalizeAngle(angle - startAngle) <= sweep + tol
  }

  /** With a non-negative tolerance an arc contains its own start angle, and its end angle when it is less than a full turn. */
  lemma AngleInArcEnds(startAngle: real, sweep: real, tol: real)
    requires 0.0 <= tol && 0.0 <= sweep
    ensures AngleInArc(startAngle, startAngle, sweep, tol)
    ensures sweep < TWO_PI ==> AngleInArc(startAngle + sweep, startAngle, sweep, tol)
  {
    assert startAngle - startAngle == 0.0;
    NormalizeAngleFixes(0.0);
    if sweep < TWO_PI {
      assert startAngle + sweep - startAngle == sweep;
      NormalizeAngleFixes(sweep);
    }
  }

  lemma AngleInArcPeriodic(angle: real, startAngle: real, sweep: real, tol: real, k: int)
    ensures AngleInArc(angle + Turns(k), startAngle, sweep, tol) == AngleInArc(angle, startAngle, sweep, tol)
  {
    assert angle + Turns(k) - startAngle == (angle - startAngle) + Turns(k);
    NormalizeAnglePeriodic(angle - startAngle, k);
  }

  /**
   * The counter-clockwise sweep from `startAngle` to `endAngle`: 0 when the
   * angles are within TOL, 2PI when they differ by a (nearly) whole turn.
   */
  function SweepAngle(startAngle: real, endAngle: real): (r: real)
    ensures 0.0 <= r <= TWO_PI
  {
    var diff := endAngle - startAngle;
    if Abs(diff) < TOL then 0.0
    else
      var raw := NormalizeAngle(diff);
      if raw < TOL then TWO_PI else raw
  }

  lemma SweepAngleCases(startAngle: real, endAngle: real)
    ensures Abs(endAngle - startAngle) < TOL ==> SweepAngle(startAngle, endAngle) == 0.0
    ensures Abs(endAngle - startAngle) >= TOL && NormalizeAngle(endAngle - startAngle) < TOL ==>
      SweepAngle(startAngle, endAngle) == TWO_PI
    ensures Abs(endAngle - startAngle) >= TOL && NormalizeAngle(endAngle - startAngle) >= TOL ==>
      TOL <= SweepAngle(startAngle, endAngle) < TWO_PI &&
      exists k :: SweepAngle(startAngle, endAngle) == endAngle - startAngle + Turns(k)
  {
  }

  /** A non-zero whole number of turns is a full circle, but no turn at all is empty. */
  lemma SweepAngleWholeTurns(startAngle: real, k: int)
    ensures SweepAngle(startAngle, startAngle + Turns(k)) == if k == 0 then 0.0 else TWO_PI
  {
    var diff := startAngle + Turns(k) - startAngle;
    assert diff == Turns(k);
    if k != 0 {
      assert Abs(diff) >= TWO_PI;
      assert 0.0 + Turns(k) == diff;
      NormalizeAnglePeriodic(0.0, k);
      NormalizeAngleFixes(0.0);
    }
  }
}
