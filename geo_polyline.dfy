// Open polylines of the 2D geometry kernel: construction from a chain of
// lines, length, closedness and conversion to a polygon, the point at a
// fraction of the length, the closest point, splitting at the closest
// segment, and the rigid transforms.

module GeoPolyline {
  import opened Wrappers
  import opened Sequences
  import opened JsMath
  import opened GeoTypes
  import opened GeoErrors
  import GeoPoint
  import GeoLine
  import GeoVector
  import GeoPolygon

  /** A polyline; `make` wraps its points unchanged. */
  datatype Polyline = Polyline(points: seq<Point>)

  /** `fromLines`: no lines give no points, a connected chain gives its points. */
  method FromLines(lines: seq<GeoLine.Line>) returns (r: Result<Polyline, GeoError>)
    ensures lines == [] ==> r == Ok(Polyline([]))
    ensures r.Ok? <==> GeoLine.ConnectedUpTo(lines, |lines|)
    ensures r.Ok? ==> r.value.points == GeoLine.ChainPoints(lines)
    ensures r.Err? ==> exists j :: (1 <= j < |lines| && r.error == DiscontinuousLines(j - 1) &&
      GeoLine.ConnectedUpTo(lines, j) && !GeoPoint.Equals(lines[j - 1].p2, lines[j].p1, GeoPoint.EQUALS_TOL))
  {
    if lines == [] {
      return Ok(Polyline([]));
    }
    var chained := GeoLine.ChainLines(lines);
    if chained.Err? {
      return Err(chained.error);
    }
    r := Ok(Polyline(chained.value));
  }

  // ---------------------------------------------------------------------
  // Length

  /** The sum of the distances between consecutive points. */
  function PathLength(m: Libm, pts: seq<Point>): real
  {
    GeoPolygon.Chain(pts, GeoPolygon.EdgeLength(m))
  }

  /** `length`. */
  method Length(m: Libm, pl: Polyline) returns (total: real)
    ensures total == PathLength(m, pl.points)
  {
    var pts := pl.points;
    total := 0.0;
    var i := 1;
    while i < |pts|
      invariant 1 <= i
      invariant |pts| > 0 ==> i <= |pts| && total == PathLength(m, pts[..i])
      invariant |pts| == 0 ==> total == 0.0
    {
      total := total + GeoPoint.Distance(m, pts[i - 1], pts[i]);
      GeoPolygon.ChainStep(pts, i - 1, GeoPolygon.EdgeLength(m));
      i := i + 1;
    }
    if |pts| > 0 {
      assert pts[..i] == pts;
    }
  }

  /** The length is non-negative and the same walked backwards. */
  lemma PathLengthProperties(m: Libm, pts: seq<Point>)
    requires SqrtLaw(m)
    ensures 0.0 <= PathLength(m, pts)
    ensures PathLength(m, Reverse(pts)) == PathLength(m, pts)
  {
    GeoPolygon.EdgeLengthReversible(m);
    GeoPolygon.ChainNonNeg(pts, GeoPolygon.EdgeLength(m));
    GeoPolygon.ChainReverse(pts, GeoPolygon.EdgeLength(m), false);
  }

  // ---------------------------------------------------------------------
  // Closedness and conversion to a polygon

  /** `isClosed`: at least three points, and the last one back at the first. */
  predicate IsClosed(pl: Polyline, tolerance: real)
  {
    |pl.points| >= 3 && GeoPoint.Equals(pl.points[0], pl.points[|pl.points| - 1], tolerance)
  }

  /** A polyline closed within a tolerance is closed within any wider one. */
  lemma IsClosedMonotone(pl: Polyline, tolerance: real, wider: real)
    requires tolerance <= wider && IsClosed(pl, tolerance)
    ensures IsClosed(pl, wider)
  {
    GeoPoint.EqualsProperties(pl.points[0], pl.points[|pl.points| - 1], tolerance, wider);
  }

  /** Two or more connected lines whose chain closes up form a closed polyline. */
  lemma ChainIsClosed(lines: seq<GeoLine.Line>)
    requires |lines| >= 2
    requires GeoPoint.Equals(lines[|lines| - 1].p2, lines[0].p1, GeoPoint.EQUALS_TOL)
    ensures IsClosed(Polyline(GeoLine.ChainPoints(lines)), GeoPoint.EQUALS_TOL)
  {
    GeoPoint.EqualsProperties(lines[|lines| - 1].p2, lines[0].p1, GeoPoint.EQUALS_TOL, GeoPoint.EQUALS_TOL);
  }

  /** Point i is not equal, within the default tolerance, to any point before it. */
  predicate FirstOfItsKind(s: seq<Point>, i: int)
    requires 0 <= i < |s|
  {
    forall j :: 0 <= j < i ==> !GeoPoint.Equals(s[i], s[j], GeoPoint.EQUALS_TOL)
  }

  /** The points kept by the uniqueness filter of `toPolygon`: each first of its kind. */
  function Unique(s: seq<Point>): (r: seq<Point>)
    ensures |r| <= |s|
    ensures forall y :: y in r ==> y in s
    ensures forall i, j :: 0 <= i < j < |r| ==> !GeoPoint.Equals(r[j], r[i], GeoPoint.EQUALS_TOL)
  {
    if s == [] then []
    else
      var t := s[..|s| - 1];
      var rest := Unique(t);
      if FirstOfItsKind(s, |s| - 1) then
        assert forall y :: y in rest ==> !GeoPoint.Equals(s[|s| - 1], y, GeoPoint.EQUALS_TOL) by {
          forall y | y in rest ensures !GeoPoint.Equals(s[|s| - 1], y, GeoPoint.EQUALS_TOL) {
            var j :| 0 <= j < |t| && t[j] == y;
            assert s[j] == y;
          }
        }
        var r := rest + [s[|s| - 1]];
        assert forall i :: 0 <= i < |rest| ==> r[i] == rest[i] && rest[i] in rest;
        r
      else rest
  }

  lemma FirstOfItsKindPrefix(s: seq<Point>, i: int)
    requires 0 <= i < |s| - 1
    ensures FirstOfItsKind(s[..|s| - 1], i) <==> FirstOfItsKind(s, i)
  {
    var t := s[..|s| - 1];
    assert forall j :: 0 <= j <= i ==> t[j] == s[j];
  }

  lemma {:induction false} UniqueHasFirsts(s: seq<Point>)
    ensures forall i :: 0 <= i < |s| && FirstOfItsKind(s, i) ==> s[i] in Unique(s)
  {
    if s != [] {
      var t := s[..|s| - 1];
      UniqueHasFirsts(t);
      forall i | 0 <= i < |s| - 1 && FirstOfItsKind(s, i)
        ensures s[i] in Unique(s)
      {
        FirstOfItsKindPrefix(s, i);
        assert t[i] == s[i] && t[i] in Unique(t);
      }
    }
  }

  lemma {:induction false} UniqueOnlyFirsts(s: seq<Point>)
    ensures forall y :: y in Unique(s) ==> exists i :: 0 <= i < |s| && FirstOfItsKind(s, i) && s[i] == y
  {
    if s != [] {
      var t := s[..|s| - 1];
      UniqueOnlyFirsts(t);
      forall y | y in Unique(s)
        ensures exists i :: 0 <= i < |s| && FirstOfItsKind(s, i) && s[i] == y
      {
        if y in Unique(t) {
          var i :| 0 <= i < |t| && FirstOfItsKind(t, i) && t[i] == y;
          FirstOfItsKindPrefix(s, i);
          assert s[i] == y;
        } else {
          assert FirstOfItsKind(s, |s| - 1) && s[|s| - 1] == y;
        }
      }
    }
  }

  /** The filter keeps exactly the points that are first of their kind. */
  lemma UniqueKeepsFirsts(s: seq<Point>)
    ensures forall i :: 0 <= i < |s| && FirstOfItsKind(s, i) ==> s[i] in Unique(s)
    ensures forall y :: y in Unique(s) ==> exists i :: 0 <= i < |s| && FirstOfItsKind(s, i) && s[i] == y
  {
    UniqueHasFirsts(s);
    UniqueOnlyFirsts(s);
  }

  /** The ring a closed polyline describes: every point but the closing one. */
  function OpenRing(pl: Polyline): seq<Point>
    requires pl.points != []
  {
    pl.points[..|pl.points| - 1]
  }

  /** `toPolygon`: drop the closing point, check what is left, orient counter-clockwise. */
  method ToPolygon(pl: Polyline) returns (r: Result<GeoPolygon.Polygon, GeoError>)
    ensures !IsClosed(pl, GeoPoint.EQUALS_TOL) ==> r == Err(OpenPolyline)
    ensures IsClosed(pl, GeoPoint.EQUALS_TOL) && |pl.points| < 4 ==>
      r == Err(InvalidPolygon("weniger als 3 Punkte nach Entfernung des Schlusspunkts"))
    ensures IsClosed(pl, GeoPoint.EQUALS_TOL) && |pl.points| >= 4 && |Unique(OpenRing(pl))| < 3 ==>
      r == Err(InvalidPolygon("weniger als 3 eindeutige Punkte nach Entfernung des Schlusspunkts"))
    ensures r.Ok? ==> IsClosed(pl, GeoPoint.EQUALS_TOL) && |Unique(OpenRing(pl))| >= 3
    ensures r.Ok? ==> r == GeoPolygon.Make(OpenRing(pl))
    ensures IsClosed(pl, GeoPoint.EQUALS_TOL) && |pl.points| >= 4 && |Unique(OpenRing(pl))| >= 3 ==>
      r == GeoPolygon.Make(OpenRing(pl))
  {
    if !IsClosed(pl, GeoPoint.EQUALS_TOL) {
      return Err(OpenPolyline);
    }
    var points := pl.points[..|pl.points| - 1];
    if |points| < 3 {
      return Err(InvalidPolygon("weniger als 3 Punkte nach Entfernung des Schlusspunkts"));
    }
    if |Unique(points)| < 3 {
      return Err(InvalidPolygon("weniger als 3 eindeutige Punkte nach Entfernung des Schlusspunkts"));
    }
    var n := |points|;
    var area := 0.0;
    var i := 0;
    while i < n
      invariant 0 <= i <= n
      invariant area == GeoPolygon.EdgeSum(points, i, GeoPolygon.EdgeCross)
    {
      var j := (i + 1) % n;
      area := area + GeoPolygon.EdgeCross(points[i], points[j]);
      GeoPolygon.EdgeSumStep(points, i, GeoPolygon.EdgeCross);
      i := i + 1;
    }
    if area < 0.0 {
      r := Ok(GeoPolygon.Polygon(Reverse(points)));
    } else {
      r := Ok(GeoPolygon.Polygon(points));
    }
  }

  // ---------------------------------------------------------------------
  // The point at a fraction of the length

  /** Segments shorter than this are skipped by `pointAt`. */
  const MIN_SEGMENT: real := 1.0e-14

  /** The length of segment i, from point i - 1 to point i. */
  function SegLength(m: Libm, pts: seq<Point>, i: int): real
    requires 1 <= i < |pts|
  {
    GeoPoint.Distance(m, pts[i - 1], pts[i])
  }

  /** The length walked over the first k segments, the skipped ones not counted. */
  function Walked(m: Libm, pts: seq<Point>, k: int): real
    requires 0 <= k < |pts|
  {
    if k == 0 then 0.0
    else Walked(m, pts, k - 1) + if SegLength(m, pts, k) < MIN_SEGMENT then 0.0 else SegLength(m, pts, k)
  }

  /** Segment i is long enough to count and brings the walked length up to target. */
  predicate Reaches(m: Libm, pts: seq<Point>, target: real, i: int)
    requires 1 <= i < |pts|
  {
    MIN_SEGMENT <= SegLength(m, pts, i) && target <= Walked(m, pts, i - 1) + SegLength(m, pts, i)
  }

  /** The point at which the walk stops inside segment i. */
  function StopPoint(m: Libm, pts: seq<Point>, target: real, i: int): Point
    requires 1 <= i < |pts| && Reaches(m, pts, target, i)
  {
    Along(pts[i - 1], pts[i], (target - Walked(m, pts, i - 1)) / SegLength(m, pts, i))
  }

  /** No segment reaches the target. */
  predicate NoneReaches(m: Libm, pts: seq<Point>, target: real)
  {
    forall k :: 1 <= k < |pts| ==> !Reaches(m, pts, target, k)
  }

  /** Segment j is the first to reach the target. */
  predicate FirstReaching(m: Libm, pts: seq<Point>, target: real, j: int)
  {
    1 <= j < |pts| && Reaches(m, pts, target, j) && forall k :: 1 <= k < j ==> !Reaches(m, pts, target, k)
  }

  /**
   * Where the walk that starts at segment i stops: inside the first segment
   * from i on that reaches the target, or at the last point.
   */
  function PointFrom(m: Libm, pts: seq<Point>, target: real, i: int): Point
    requires 1 <= i <= |pts|
    decreases |pts| - i
  {
    if i == |pts| then pts[|pts| - 1]
    else if Reaches(m, pts, target, i) then StopPoint(m, pts, target, i)
    else PointFrom(m, pts, target, i + 1)
  }

  /** Scaling the vector from a to b by s and adding it to a is the point at parameter s. */
  lemma TranslateScaled(a: Point, b: Point, s: real)
    ensures GeoPoint.Translate(a, GeoVector.Scale(GeoVector.FromPoints(a, b), s)) == Along(a, b, s)
  {
    assert Mul(b.x - a.x, s) == Mul(s, b.x - a.x) && Mul(b.y - a.y, s) == Mul(s, b.y - a.y);
  }

  /** `pointAt`: the point at fraction t of the length, measured along the segments. */
  method PointAt(m: Libm, pl: Polyline, t: real) returns (r: Result<Point, GeoError>)
    ensures r.Err? <==> pl.points == []
    ensures r.Err? ==> r.error == InvalidPolyline("pointAt auf leerer Polyline")
    ensures |pl.points| == 1 ==> r == Ok(pl.points[0])
    ensures |pl.points| >= 2 ==> r == Ok(PointFrom(m, pl.points, Mul(t, PathLength(m, pl.points)), 1))
  {
    var pts := pl.points;
    if |pts| == 0 {
      return Err(InvalidPolyline("pointAt auf leerer Polyline"));
    }
    if |pts| == 1 {
      return Ok(pts[0]);
    }
    var totalLen := Length(m, pl);
    var target := Mul(t, totalLen);
    var accumulated := 0.0;
    var i := 1;
    while i < |pts|
      invariant 1 <= i <= |pts|
      invariant accumulated == Walked(m, pts, i - 1)
      invariant PointFrom(m, pts, target, i) == PointFrom(m, pts, target, 1)
    {
      var segLen := GeoPoint.Distance(m, pts[i - 1], pts[i]);
      assert segLen == SegLength(m, pts, i);
      if segLen < MIN_SEGMENT {
        assert !Reaches(m, pts, target, i);
        i := i + 1;
        continue;
      }
      if accumulated + segLen >= target {
        var localT := (target - accumulated) / segLen;
        var v := GeoVector.FromPoints(pts[i - 1], pts[i]);
        var q := GeoPoint.Translate(pts[i - 1], GeoVector.Scale(v, localT));
        TranslateScaled(pts[i - 1], pts[i], localT);
        assert Reaches(m, pts, target, i);
        assert q == StopPoint(m, pts, target, i);
        return Ok(q);
      }
      assert !Reaches(m, pts, target, i);
      accumulated := accumulated + segLen;
      i := i + 1;
    }
    r := Ok(pts[|pts| - 1]);
  }

  /**
   * The walk stops at the last point exactly when no segment reaches the
   * target, and otherwise inside the first segment that does.
   */
  lemma {:induction false} PointFromFirstReaching(m: Libm, pts: seq<Point>, target: real, i: int)
    requires 1 <= i <= |pts|
    requires forall k :: 1 <= k < i ==> !Reaches(m, pts, target, k)
    ensures (NoneReaches(m, pts, target) && PointFrom(m, pts, target, i) == pts[|pts| - 1]) ||
            (exists j :: FirstReaching(m, pts, target, j) && PointFrom(m, pts, target, i) == StopPoint(m, pts, target, j))
    decreases |pts| - i
  {
    if i == |pts| {
    } else if Reaches(m, pts, target, i) {
      assert FirstReaching(m, pts, target, i);
    } else {
      PointFromFirstReaching(m, pts, target, i + 1);
    }
  }

  /** Before the first segment that reaches the target, the walked length stays below it (or is zero). */
  lemma {:induction false} WalkedBelowTarget(m: Libm, pts: seq<Point>, target: real, i: int)
    requires 1 <= i < |pts|
    requires forall k :: 1 <= k < i ==> !Reaches(m, pts, target, k)
    ensures Walked(m, pts, i - 1) == 0.0 || Walked(m, pts, i - 1) < target
  {
    if i > 1 {
      WalkedBelowTarget(m, pts, target, i - 1);
      assert !Reaches(m, pts, target, i - 1);
    }
  }

  /** The point returned inside a segment sits at a parameter of [0, 1] for a target of at least 0. */
  lemma PointAtParameter(m: Libm, pts: seq<Point>, target: real, i: int)
    requires 1 <= i < |pts| && Reaches(m, pts, target, i)
    requires forall k :: 1 <= k < i ==> !Reaches(m, pts, target, k)
    ensures (target - Walked(m, pts, i - 1)) / SegLength(m, pts, i) <= 1.0
    ensures 0.0 <= target ==> 0.0 <= (target - Walked(m, pts, i - 1)) / SegLength(m, pts, i)
  {
    WalkedBelowTarget(m, pts, target, i);
    var w, l := Walked(m, pts, i - 1), SegLength(m, pts, i);
    QuotientInUnit(target - w, l);
  }

  lemma QuotientInUnit(x: real, l: real)
    requires 0.0 < l && x <= l
    ensures x / l <= 1.0
    ensures 0.0 <= x ==> 0.0 <= x / l
  {
  }

  // ---------------------------------------------------------------------
  // Closest point and split

  /** The projection of p onto segment i, from point i - 1 to point i. */
  function Candidate(pts: seq<Point>, p: Point, i: int): Point
    requires 1 <= i < |pts|
  {
    ClosestPointOnSegment(pts[i - 1], pts[i], p)
  }

  function CandidateDistance(m: Libm, pts: seq<Point>, p: Point, i: int): real
    requires 1 <= i < |pts|
  {
    GeoPoint.Distance(m, p, Candidate(pts, p, i))
  }

  /**
   * Among segments 1 .. i - 1, segment b is the first whose projection is
   * nearest p: earlier segments are strictly farther, later ones no nearer.
   */
  predicate BestSoFar(m: Libm, pts: seq<Point>, p: Point, b: int, i: int)
  {
    1 <= b < i <= |pts| &&
    (forall k :: 1 <= k < b ==> CandidateDistance(m, pts, p, b) < CandidateDistance(m, pts, p, k)) &&
    (forall k :: b <= k < i ==> CandidateDistance(m, pts, p, b) <= CandidateDistance(m, pts, p, k))
  }

  /** The best segment of the whole polyline. */
  predicate BestSegment(m: Libm, pts: seq<Point>, p: Point, b: int)
  {
    BestSoFar(m, pts, p, b, |pts|)
  }

  /** One step of the search: a strictly nearer segment i takes over, otherwise b stays. */
  lemma BestSoFarStep(m: Libm, pts: seq<Point>, p: Point, b: int, i: int)
    requires i < |pts|
    requires i == 1 || BestSoFar(m, pts, p, b, i)
    ensures i == 1 || CandidateDistance(m, pts, p, i) < CandidateDistance(m, pts, p, b) ==> BestSoFar(m, pts, p, i, i + 1)
    ensures i > 1 && CandidateDistance(m, pts, p, b) <= CandidateDistance(m, pts, p, i) ==> BestSoFar(m, pts, p, b, i + 1)
  {
  }

  /** Only one segment is the best. */
  lemma BestSegmentUnique(m: Libm, pts: seq<Point>, p: Point, b1: int, b2: int)
    requires BestSegment(m, pts, p, b1) && BestSegment(m, pts, p, b2)
    ensures b1 == b2
  {
    if b1 < b2 {
      BestBeatsEarlier(m, pts, p, b2, b1);
      BestBeatsLater(m, pts, p, b1, b2);
      assert false;
    } else if b2 < b1 {
      BestBeatsEarlier(m, pts, p, b1, b2);
      BestBeatsLater(m, pts, p, b2, b1);
      assert false;
    }
  }

  lemma BestBeatsEarlier(m: Libm, pts: seq<Point>, p: Point, b: int, k: int)
    requires BestSegment(m, pts, p, b) && 1 <= k < b
    ensures CandidateDistance(m, pts, p, b) < CandidateDistance(m, pts, p, k)
  {
  }

  lemma BestBeatsLater(m: Libm, pts: seq<Point>, p: Point, b: int, k: int)
    requires BestSegment(m, pts, p, b) && b <= k < |pts|
    ensures CandidateDistance(m, pts, p, b) <= CandidateDistance(m, pts, p, k)
  {
  }

  /** `closestPoint`: the projection onto the best segment. */
  method ClosestPoint(m: Libm, pl: Polyline, p: Point) returns (r: Result<Point, GeoError>)
    ensures r.Err? <==> pl.points == []
    ensures r.Err? ==> r.error == InvalidPolyline("closestPoint auf leerer Polyline")
    ensures |pl.points| == 1 ==> r == Ok(pl.points[0])
    ensures |pl.points| >= 2 ==> exists b :: BestSegment(m, pl.points, p, b) && r == Ok(Candidate(pl.points, p, b))
  {
    var pts := pl.points;
    if |pts| == 0 {
      return Err(InvalidPolyline("closestPoint auf leerer Polyline"));
    }
    if |pts| == 1 {
      return Ok(pts[0]);
    }
    var closest := pts[0];
    var minDist := PosInf;
    ghost var best := 0;
    var i := 1;
    while i < |pts|
      invariant 1 <= i <= |pts|
      invariant i == 1 ==> minDist == PosInf
      invariant i > 1 ==> BestSoFar(m, pts, p, best, i) && closest == Candidate(pts, p, best)
      invariant i > 1 ==> minDist == Fin(CandidateDistance(m, pts, p, best))
    {
      var candidate := ClosestPointOnSegment(pts[i - 1], pts[i], p);
      var dist := GeoPoint.Distance(m, p, candidate);
      BestSoFarStep(m, pts, p, best, i);
      if !ExtLe(minDist, Fin(dist)) {
        minDist := Fin(dist);
        closest := candidate;
        best := i;
      }
      i := i + 1;
    }
    r := Ok(closest);
  }

  /** Over exact reals the closest point is no farther from p than any point of any segment. */
  lemma ClosestPointIsClosest(m: Libm, pts: seq<Point>, p: Point, b: int, i: int, s: real)
    requires SqrtLaw(m)
    requires BestSegment(m, pts, p, b)
    requires 1 <= i < |pts| && 0.0 <= s <= 1.0
    ensures GeoPoint.Distance(m, p, Candidate(pts, p, b)) <= GeoPoint.Distance(m, p, Along(pts[i - 1], pts[i], s))
  {
    assert CandidateDistance(m, pts, p, b) <= CandidateDistance(m, pts, p, i);
    ClosestPointOnSegmentIsClosest(pts[i - 1], pts[i], p, s);
    SqrtMonotone(m, SqDist(p, Candidate(pts, p, i)), SqDist(p, Along(pts[i - 1], pts[i], s)));
  }

  /**
   * The two parts of a split at the end index k of a segment and the point q
   * on it: q closes the first part unless it equals point k - 1 and opens the
   * second unless it equals point k.
   */
  function SplitAt(pts: seq<Point>, k: int, q: Point): (r: (Polyline, Polyline))
    requires 1 <= k < |pts|
    ensures k <= |r.0.points| && |pts| - k <= |r.1.points|
    ensures r.0.points[..k] == pts[..k]
    ensures GeoPoint.Equals(pts[k - 1], q, GeoPoint.EQUALS_TOL) ==> r.0.points == pts[..k]
    ensures !GeoPoint.Equals(pts[k - 1], q, GeoPoint.EQUALS_TOL) ==> r.0.points == pts[..k] + [q]
    ensures GeoPoint.Equals(pts[k], q, GeoPoint.EQUALS_TOL) ==> r.1.points == pts[k..]
    ensures !GeoPoint.Equals(pts[k], q, GeoPoint.EQUALS_TOL) ==> r.1.points == [q] + pts[k..]
    ensures pts == r.0.points[..k] + r.1.points[|r.1.points| - (|pts| - k)..]
  {
    var beforeBase, afterBase := pts[..k], pts[k..];
    var before := if GeoPoint.Equals(beforeBase[|beforeBase| - 1], q, GeoPoint.EQUALS_TOL) then beforeBase else beforeBase + [q];
    var after := if GeoPoint.Equals(afterBase[0], q, GeoPoint.EQUALS_TOL) then afterBase else [q] + afterBase;
    assert before[..k] == beforeBase;
    assert after[|after| - (|pts| - k)..] == afterBase;
    (Polyline(before), Polyline(after))
  }

  /** `split`: cut at the projection of point onto the best segment. */
  method Split(m: Libm, pl: Polyline, point: Point) returns (r: Result<(Polyline, Polyline), GeoError>)
    ensures r.Err? <==> |pl.points| < 2
    ensures r.Err? ==> r.error == InvalidPolyline("split auf Polyline mit weniger als 2 Punkten")
    ensures r.Ok? ==> exists k :: (BestSegment(m, pl.points, point, k) &&
      r.value == SplitAt(pl.points, k, Candidate(pl.points, point, k)))
  {
    var pts := pl.points;
    if |pts| < 2 {
      return Err(InvalidPolyline("split auf Polyline mit weniger als 2 Punkten"));
    }
    var bestIdx := 0;
    var bestDist := PosInf;
    var bestProjected := point;
    var i := 1;
    while i < |pts|
      invariant 1 <= i <= |pts|
      invariant i == 1 ==> bestDist == PosInf
      invariant i > 1 ==> BestSoFar(m, pts, point, bestIdx, i) && bestProjected == Candidate(pts, point, bestIdx)
      invariant i > 1 ==> bestDist == Fin(CandidateDistance(m, pts, point, bestIdx))
    {
      var projected := ClosestPointOnSegment(pts[i - 1], pts[i], point);
      var dist := GeoPoint.Distance(m, point, projected);
      BestSoFarStep(m, pts, point, bestIdx, i);
      if !ExtLe(bestDist, Fin(dist)) {
        bestDist := Fin(dist);
        bestIdx := i;
        bestProjected := projected;
      }
      i := i + 1;
    }
    r := Ok(SplitAt(pts, bestIdx, bestProjected));
  }

  // ---------------------------------------------------------------------
  // Transforms

  /** `translate`: every point moves by v, in order. */
  function Translate(pl: Polyline, v: Vector): (r: Polyline)
    ensures |r.points| == |pl.points|
    ensures forall i :: 0 <= i < |pl.points| ==> r.points[i] == GeoPoint.Translate(pl.points[i], v)
  {
    Polyline(GeoPolygon.TranslatePoints(pl.points, v))
  }

  lemma {:induction false} TranslateKeepsLength(m: Libm, pl: Polyline, v: Vector)
    ensures PathLength(m, Translate(pl, v).points) == PathLength(m, pl.points)
    decreases |pl.points|
  {
    var s := pl.points;
    if |s| >= 2 {
      var t := s[..|s| - 1];
      assert Translate(pl, v).points[..|s| - 1] == Translate(Polyline(t), v).points;
      TranslateKeepsLength(m, Polyline(t), v);
      var a, b := s[|s| - 2], s[|s| - 1];
      assert SqDist(GeoPoint.Translate(a, v), GeoPoint.Translate(b, v)) == SqDist(a, b);
    }
  }

  /** `rotate`: every point turns about origin, in order. */
  function Rotate(m: Libm, pl: Polyline, angle: real, origin: Point): (r: Polyline)
    ensures |r.points| == |pl.points|
    ensures forall i :: 0 <= i < |pl.points| ==> r.points[i] == GeoPoint.Rotate(m, pl.points[i], angle, origin)
  {
    Polyline(seq(|pl.points|, i requires 0 <= i < |pl.points| => GeoPoint.Rotate(m, pl.points[i], angle, origin)))
  }

  /** `mirror`: every point is mirrored, in order; the order is never reversed. */
  function Mirror(pl: Polyline, a1: Point, a2: Point): (r: Result<Polyline, GeoError>)
    ensures r.Err? <==> pl.points != [] && SqDist(a1, a2) < TOL_SQ
    ensures r.Err? ==> r.error == DegenerateAxis
    ensures r.Ok? ==> |r.value.points| == |pl.points|
    ensures r.Ok? ==> forall i :: 0 <= i < |pl.points| ==> GeoPoint.Mirror(pl.points[i], a1, a2) == Ok(r.value.points[i])
  {
    match GeoPolygon.MirrorPoints(pl.points, a1, a2)
    case Err(e) => Err(e)
    case Ok(mirrored) => Ok(Polyline(mirrored))
  }

  /** Mirroring twice in a proper axis restores the polyline. */
  lemma MirrorTwice(pl: Polyline, a1: Point, a2: Point)
    requires TOL_SQ <= SqDist(a1, a2)
    ensures Mirror(pl, a1, a2).Ok?
    ensures Mirror(Mirror(pl, a1, a2).value, a1, a2) == Ok(pl)
  {
    var once := Mirror(pl, a1, a2).value;
    var twice := Mirror(once, a1, a2).value;
    forall i | 0 <= i < |pl.points| ensures twice.points[i] == pl.points[i] {
      GeoPoint.MirrorInvolution(pl.points[i], a1, a2);
    }
    assert twice.points == pl.points;
  }
}
