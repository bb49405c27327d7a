# baustatik core in Dafny

A Dafny model of the computational core of the baustatik TypeScript
monorepo. It covers four packages:

- **geometry-2d**: points, vectors, lines, arcs, polylines and polygons in
  the x/y plane. This includes the shared helpers `closestPointOnSegment`,
  `normalizeAngle`, `angleInArc` and `sweepAngle`.
- **section-geometry primitives**: points, lines, arcs, segments and contours
  of a cross-section in the y/z plane.
- **round**: the guards `isUnroundable` and `isValidFactor`, rounding to
  decimal places, to significant digits, "smart" rounding and atomic
  rounding, plus the `round(value)` chain object that dispatches to them.
- **units**: the unit tables, the unit-name recogniser `resolveUnit`, the two
  rounding rules applied after a conversion, and the conversion chain
  `convert(value).from(source).to(target)`.

Modelling conventions:

- JavaScript numbers are exact `real`s.
- `Math.round(x)` is `Floor(x + 1/2)` (`JsMath.Round`). `%` truncates toward
  zero (`JsMath.JsRem`).
- `Math.floor(Math.log10(v))` is `JsMath.Magnitude`, the unique `m` with
  `10^m <= v < 10^(m+1)`.
- The transcendental functions (`Math.sqrt`, `sin`, `cos`, `atan2`, `acos`
  and `10 ** x` for non-integral `x`) are fields of a `Libm` record passed to
  every operation that needs them. Where a proof needs the square root or
  the arc cosine, its laws are stated as the preconditions `SqrtLaw` and
  `AcosLaw`.
- Each thrown error class becomes an `Err` value of a `Result`. The
  geometry messages in German are kept verbatim where the error carries
  them.

Shared specification functions:

- `GeoPolygon.Chain` and `GeoPolygon.Cyclic` are sums over consecutive
  edges. They specify the shoelace area, the centroid, the perimeter and the
  polyline length.
- `GeoPolyline.BestSegment` is the first strict minimum. It specifies both
  `closestPoint` and `split`.
- `GeoLine.ChainPoints` is the point list of a chain of lines. It specifies
  both `fromLines` operations.
- `SectionContour.BoxOf` folds points into an extended-real bounding box.

Each loop in the source is a `method` with loop invariants, proved equal
to its specification function.

Where the code and its doc comment disagree, the model follows the code.
For example, the doc comment of `isUnroundable` says it returns false for
NaN and Infinity, but the code returns true, and the model returns true.

## Model

| member | source | states |
|---|---|---|
| GeoTypes.ClosestPointOnSegment | packages/geometry-2d/src/types.ts:12-23 | a degenerate segment (p1 = p2) yields p1 itself |
| GeoTypes.ClosestPointOnSegmentOnSegment | packages/geometry-2d/src/types.ts:17-22 | the clamped parameter lies in [0, 1] and the result is the point at that parameter on p1→p2 |
| GeoTypes.ClosestPointOnSegmentIsClosest | packages/geometry-2d/src/types.ts:12-23 | no point of the segment is strictly closer to p than the returned point |
| GeoTypes.NormalizeAngle | packages/geometry-2d/src/types.ts:25-27 | the result lies in [0, 2π) and differs from the angle by a whole number of turns |
| GeoTypes.NormalizeAnglePeriodic | packages/geometry-2d/src/types.ts:25-27 | adding whole turns to the angle does not change the normalised angle |
| GeoTypes.NormalizeAngleFixes | packages/geometry-2d/src/types.ts:25-27 | an angle already in [0, 2π) is returned unchanged, so normalising is idempotent |
| GeoTypes.AngleInArcEnds | packages/geometry-2d/src/types.ts:29-33 | with a non-negative tolerance an arc contains its start angle, and its end angle start + sweep whenever the sweep is below a full turn |
| GeoTypes.AngleInArcPeriodic | packages/geometry-2d/src/types.ts:29-33 | whole turns added to the angle do not change membership |
| GeoTypes.SweepAngle | packages/geometry-2d/src/types.ts:35-40 | the sweep lies in [0, 2π] |
| GeoTypes.SweepAngleCases | packages/geometry-2d/src/types.ts:35-40 | the sweep is 0 for differences below 1e-10, a full turn when the difference is a non-zero multiple of 2π within tolerance, and otherwise the difference moved into [1e-10, 2π) by whole turns |
| GeoTypes.SweepAngleWholeTurns | packages/geometry-2d/src/types.ts:35-40 | an end angle k whole turns after the start gives 0 for k = 0 and 2π otherwise |
| GeoPoint.DistanceMetric | packages/geometry-2d/src/point.ts:12 | the distance is non-negative, symmetric and zero exactly for equal points |
| GeoPoint.EqualsProperties | packages/geometry-2d/src/point.ts:13-14 | tolerant equality is reflexive for a non-negative tolerance, symmetric, and preserved when the tolerance grows |
| GeoPoint.TranslateBack | packages/geometry-2d/src/point.ts:15 | translating by v and then by -v returns the point, and the point moves by the squared length of v |
| GeoPoint.RotateFixesOrigin | packages/geometry-2d/src/point.ts:16-25 | the origin of a rotation is fixed by it |
| GeoPoint.Reflection | packages/geometry-2d/src/point.ts:31-35 | the midpoint of a point and its image is the foot of the perpendicular on the axis |
| GeoPoint.Mirror | packages/geometry-2d/src/point.ts:26-36 | the mirror fails with DegenerateAxis exactly when the squared axis length is below 1e-14 |
| GeoPoint.ReflectionProjection | packages/geometry-2d/src/point.ts:31-35 | the image has the same projection onto the axis as the point |
| GeoPoint.MirrorFixesAxis | packages/geometry-2d/src/point.ts:26-36 | every point of the axis line is its own image |
| GeoPoint.MirrorInvolution | packages/geometry-2d/src/point.ts:26-36 | mirroring twice across a valid axis gives the point back |
| GeoVector.TranslateFromPoints | packages/geometry-2d/src/vector.ts:8-11 | a translated by fromPoints(a, b) is b |
| GeoVector.Normalize | packages/geometry-2d/src/vector.ts:13-17 | normalising fails with DegenerateVector exactly when the length is below 1e-14 |
| GeoVector.NormalizeUnit | packages/geometry-2d/src/vector.ts:13-17 | a normalised vector has length 1, is parallel to the input (cross product 0) and points the same way (positive dot product) |
| GeoVector.DotCrossLaws | packages/geometry-2d/src/vector.ts:28-29 | the dot product is symmetric, the cross product antisymmetric, and a vector's cross product with itself is 0 |
| GeoVector.PerpendicularLaws | packages/geometry-2d/src/vector.ts:35 | the perpendicular is orthogonal to v, its cross product with v is v's squared length, and applying it twice negates v |
| GeoVector.AddSubtractLaws | packages/geometry-2d/src/vector.ts:18-27 | addition commutes, subtracting b undoes adding b, and negation is scaling by -1 |
| GeoLine.MidpointProperties | packages/geometry-2d/src/line.ts:26 | the midpoint is the point at parameter 1/2 and is equidistant from both ends |
| GeoLine.ExtendAlongLine | packages/geometry-2d/src/line.ts:29-35 | both new end points lie on the line through p1 and p2, and the new segment runs along the direction with length + startDelta + endDelta |
| GeoLine.ParallelSameDirection | packages/geometry-2d/src/line.ts:36 | the parallel line fails exactly when the direction does, and it keeps the direction vector p1→p2 |
| GeoLine.SplitRejoins | packages/geometry-2d/src/line.ts:37 | splitting at a point of the segment gives two parts that meet there, rejoin to the line, and whose lengths add up to the line's length |
| GeoLine.ClosestPointBounds | packages/geometry-2d/src/line.ts:38-39 | the closest point lies on the segment, and the distance to it is no larger than the distance to either end |
| GeoLine.Intersect | packages/geometry-2d/src/line.ts:40-49 | there is no intersection exactly when the absolute denominator is below 1e-10 |
| GeoLine.IntersectOnBothLines | packages/geometry-2d/src/line.ts:40-49 | a reported intersection lies on both infinite lines |
| GeoLine.IntersectSegment | packages/geometry-2d/src/line.ts:50-61 | a segment intersection exists exactly when the lines are not parallel and both parameters lie in [0, 1]; it is then the line intersection |
| GeoLine.ParallelPerpendicularSymmetric | packages/geometry-2d/src/line.ts:62-65 | isParallel and isPerpendicular do not depend on the order of the two lines |
| GeoLine.TranslateKeepsLength | packages/geometry-2d/src/line.ts:68 | translation keeps a line's length |
| GeoLine.Mirror | packages/geometry-2d/src/line.ts:73-76 | mirroring a line fails exactly when the axis is degenerate |
| GeoLine.MirrorInvolution | packages/geometry-2d/src/line.ts:73-76 | mirroring a line twice gives it back |
| GeoLine.ChainPoints | packages/geometry-2d/src/polyline.ts:25-32 | the chained points are the first line's start followed by every line's end |
| GeoLine.ChainLines | packages/geometry-2d/src/polyline.ts:25-32 | the chaining loop succeeds exactly when consecutive lines meet within 1e-10, and then yields ChainPoints; otherwise it reports DiscontinuousLines(i - 1) at the first break i |
| GeoArc.FromCenter | packages/geometry-2d/src/arc.ts:44-47 | construction fails exactly for a radius <= 0, reporting that radius, and keeps the given fields otherwise |
| GeoArc.CircumcentreEquidistant | packages/geometry-2d/src/arc.ts:56-68 | the centre computed from the three points is equally far from all three |
| GeoArc.CircumradiusPositive | packages/geometry-2d/src/arc.ts:56-68 | for non-collinear points the centre is not at p1, so the radius is positive |
| GeoArc.FromPoints | packages/geometry-2d/src/arc.ts:49-83 | fails with CollinearPoints exactly when the absolute determinant is below 1e-10; otherwise the centre is the circumcentre, the radius is the distance to p1, and the angles are swapped exactly when p2's angle is not on the arc from p1 to p3 |
| GeoArc.Length | packages/geometry-2d/src/arc.ts:85 | for a non-negative radius the length lies between 0 and the full circumference |
| GeoArc.Offset | packages/geometry-2d/src/arc.ts:114-121 | the offset fails exactly when the new radius is <= 0, reporting distance and new radius; otherwise only the radius changes |
| GeoArc.SegmentCount | packages/geometry-2d/src/arc.ts:129-141 | the segment count is positive, and with a tolerance it is a whole number of at least 2 |
| GeoArc.ToPolyline | packages/geometry-2d/src/arc.ts:123-154 | a non-positive segment count or tolerance is rejected with its value; otherwise the polyline holds floor(n) + 1 sample points at the angles start + sweep·i/n, which is segments + 1 for a whole count and at least 3 with a tolerance |
| GeoArc.QuadraticRoot | packages/geometry-2d/src/arc.ts:174-177 | the root formula with the square root of the discriminant solves the quadratic |
| GeoArc.IntersectLineFull | packages/geometry-2d/src/arc.ts:156-178 | a line meets the full circle in at most two points |
| GeoArc.IntersectLineFullCount | packages/geometry-2d/src/arc.ts:156-178 | there are no points for a degenerate line or a negative discriminant, one below a discriminant of 1e-10, and two otherwise |
| GeoArc.IntersectLineFullOnCircle | packages/geometry-2d/src/arc.ts:156-178 | every reported point lies on the circle, for the tangent point when the discriminant is exactly 0 |
| GeoArc.IntersectLine | packages/geometry-2d/src/arc.ts:180-186 | the points kept are exactly the full-circle intersections whose angle lies on the arc |
| GeoArc.IntersectArcFull | packages/geometry-2d/src/arc.ts:188-219 | two circles give at most two points, and none exactly when they are apart, nested or concentric |
| GeoArc.IntersectArc | packages/geometry-2d/src/arc.ts:221-232 | the points kept are exactly the circle intersections that lie on both arcs |
| GeoArc.TransformsKeepLength | packages/geometry-2d/src/arc.ts:234-241 | translation and rotation keep the sweep and the length of an arc |
| GeoArc.Mirror | packages/geometry-2d/src/arc.ts:243-251 | mirroring fails exactly when the axis is degenerate; otherwise the centre is mirrored and the radius kept, the new start angle is normalize(2α − end) and the new end angle normalize(2α − start) for the axis angle α, both in [0, 2π) |
| GeoArc.MirrorTwice | packages/geometry-2d/src/arc.ts:243-251 | mirroring twice restores centre and radius and the angles up to whole turns |
| GeoPolyline.FromLines | packages/geometry-2d/src/polyline.ts:23-34 | no lines give an empty polyline; otherwise the result is Ok exactly when the lines are connected, with the chained points, and the first break i is reported as DiscontinuousLines(i - 1) |
| GeoPolyline.Length | packages/geometry-2d/src/polyline.ts:36-40 | the summing loop computes the path length |
| GeoPolyline.PathLengthProperties | packages/geometry-2d/src/polyline.ts:36-40 | the path length is non-negative and does not change when the points are reversed |
| GeoPolyline.IsClosedMonotone | packages/geometry-2d/src/polyline.ts:42-43 | a polyline closed under some tolerance stays closed under a larger one |
| GeoPolyline.ChainIsClosed | packages/geometry-2d/src/polyline.ts:42-43 | two or more chained lines whose last end meets the first start form a closed polyline |
| GeoPolyline.UniqueKeepsFirsts | packages/geometry-2d/src/polyline.ts:49 | the deduplicated list holds every point that is not equal within 1e-10 to an earlier point, and nothing else |
| GeoPolyline.Unique | packages/geometry-2d/src/polyline.ts:49 | the deduplicated list is no longer than the input, holds only input points, and no two of its points are equal within 1e-10 |
| GeoPolyline.ToPolygon | packages/geometry-2d/src/polyline.ts:45-59 | an open polyline, fewer than 3 points without the closing point, and fewer than 3 distinct points are each reported with their message; in every other case, a closed polyline with at least 3 distinct points left after dropping the closing point, the result is Polygon.make of those points, and only then is it Ok |
| GeoPolyline.PointAt | packages/geometry-2d/src/polyline.ts:61-81 | an empty polyline is rejected, a single point is returned, and otherwise the result is the walk to t times the total length |
| GeoPolyline.PointFromFirstReaching | packages/geometry-2d/src/polyline.ts:69-80 | the walk stops on the first non-degenerate segment that reaches the target, or returns the last point when none does |
| GeoPolyline.PointAtParameter | packages/geometry-2d/src/polyline.ts:72-75 | on the stopping segment the local parameter is at most 1, and at least 0 for a non-negative target |
| GeoPolyline.BestSegmentUnique | packages/geometry-2d/src/polyline.ts:90-97 | the segment the strict-less search keeps, the first one of minimal distance, is unique |
| GeoPolyline.ClosestPoint | packages/geometry-2d/src/polyline.ts:83-100 | an empty polyline is rejected, a single point is returned, and otherwise the result is the closest point on the first segment of minimal distance |
| GeoPolyline.ClosestPointIsClosest | packages/geometry-2d/src/polyline.ts:83-100 | no point on any segment of the polyline is closer than the returned point |
| GeoPolyline.SplitAt | packages/geometry-2d/src/polyline.ts:119-130 | the two halves hold the points before and from the split segment, the projected point is added on each side unless it equals that side's end, and together they give back every original point in order |
| GeoPolyline.Split | packages/geometry-2d/src/polyline.ts:102-131 | fewer than 2 points are rejected; otherwise the split happens at the first segment of minimal distance, at the projected point |
| GeoPolyline.Translate | packages/geometry-2d/src/polyline.ts:133 | every point is translated and the count is kept |
| GeoPolyline.TranslateKeepsLength | packages/geometry-2d/src/polyline.ts:133 | translation keeps the path length |
| GeoPolyline.Rotate | packages/geometry-2d/src/polyline.ts:134 | every point is rotated and the count is kept |
| GeoPolyline.Mirror | packages/geometry-2d/src/polyline.ts:135 | a degenerate axis fails for a non-empty polyline; otherwise every point is mirrored |
| GeoPolyline.MirrorTwice | packages/geometry-2d/src/polyline.ts:135 | mirroring a polyline twice gives it back |
| GeoPolygon.SignedArea | packages/geometry-2d/src/polygon.ts:19-27 | the loop computes half the cyclic shoelace sum |
| GeoPolygon.ShoelaceReverse | packages/geometry-2d/src/polygon.ts:19-27 | reversing the points negates the shoelace sum |
| GeoPolygon.Make | packages/geometry-2d/src/polygon.ts:52-55 | fewer than 3 points are rejected; otherwise the points or their reverse are kept so that the signed area is non-negative, unchanged when it already is |
| GeoPolygon.MakeNotClockwise | packages/geometry-2d/src/polygon.ts:52-55 | a made polygon is never clockwise, and toCounterClockwise leaves it as it is |
| GeoPolygon.FromLines | packages/geometry-2d/src/polygon.ts:57-73 | fewer than 3 lines, a break in the chain and an open chain are each reported; otherwise the result is Polygon.make of the chained points without the closing one |
| GeoPolygon.Area | packages/geometry-2d/src/polygon.ts:75 | the area is non-negative and equals the signed area up to sign |
| GeoPolygon.AreaReverse | packages/geometry-2d/src/polygon.ts:75 | reversing the points keeps the area |
| GeoPolygon.ToClockwise | packages/geometry-2d/src/polygon.ts:121 | the result is the polygon or its reverse, clockwise unless the area is 0, unchanged when already clockwise, with the same area |
| GeoPolygon.ToCounterClockwise | packages/geometry-2d/src/polygon.ts:123 | the result is the polygon or its reverse, never clockwise, unchanged when already not clockwise, with the same area |
| GeoPolygon.Centroid | packages/geometry-2d/src/polygon.ts:77-93 | the loop computes the centroid formula, or the first point when the area is below 1e-14 |
| GeoPolygon.CentroidReverse | packages/geometry-2d/src/polygon.ts:77-93 | the centroid of a polygon with area does not depend on the orientation of its points |
| GeoPolygon.Perimeter | packages/geometry-2d/src/polygon.ts:95-102 | the loop computes the closed edge-length sum |
| GeoPolygon.PerimeterProperties | packages/geometry-2d/src/polygon.ts:95-102 | the perimeter is non-negative and does not change when the points are reversed |
| GeoPolygon.Contains | packages/geometry-2d/src/polygon.ts:104-117 | the point is inside exactly when the rightward ray from it crosses an odd number of edges |
| GeoPolygon.ContainsOutsideBand | packages/geometry-2d/src/polygon.ts:104-117 | a point above or below every vertex crosses an even number of edges, so it is outside |
| GeoPolygon.BoundingBox | packages/geometry-2d/src/polygon.ts:129-143 | the box bounds every point and each bound is attained by some point; an empty polygon gives the infinite start values |
| GeoPolygon.Translate | packages/geometry-2d/src/polygon.ts:145 | every point is translated |
| GeoPolygon.TranslateKeepsSignedArea | packages/geometry-2d/src/polygon.ts:145 | translation keeps the shoelace sum, so area and orientation too |
| GeoPolygon.Rotate | packages/geometry-2d/src/polygon.ts:146 | every point is rotated and the count is kept |
| GeoPolygon.MirrorPoints | packages/geometry-2d/src/polygon.ts:148 | a degenerate axis fails for a non-empty polygon; otherwise every point is mirrored |
| GeoPolygon.Mirror | packages/geometry-2d/src/polygon.ts:147-150 | the result is never clockwise: it is the mirrored points when their shoelace sum is non-negative and their reverse when it is negative |
| GeoPolygon.MirrorNegatesShoelace | packages/geometry-2d/src/polygon.ts:148 | mirroring every point across a proper axis negates the shoelace sum |
| GeoPolygon.MirrorKeepsArea | packages/geometry-2d/src/polygon.ts:147-150 | a mirrored polygon has the same area as the original |
| GeoPolygon.MirrorTwice | packages/geometry-2d/src/polygon.ts:147-150 | mirroring a counter-clockwise polygon twice across the same axis gives back the same points in the same order |
| GeoPolygon.ToRing | packages/geometry-2d/src/polygon.ts:13-17 | the ring has one more coordinate pair than the polygon and ends where it starts |
| GeoPolygon.FromRing | packages/geometry-2d/src/polygon.ts:29-35 | reading a ring back drops its closing pair |
| GeoPolygon.RingRoundTrip | packages/geometry-2d/src/polygon.ts:13-35 | writing a polygon as a ring and reading it back gives its points |
| SectionPoint.DistanceProperties | packages/section-geometry/src/primitives/point.ts:12-14 | the distance is non-negative, symmetric, 0 from a point to itself and 0 only for equal points |
| SectionPoint.EqualsProperties | packages/section-geometry/src/primitives/point.ts:19-21 | tolerant equality is reflexive, symmetric and preserved when the tolerance grows |
| SectionPoint.EqualsNotAntitone | packages/section-geometry/src/primitives/point.ts:19-21 | a smaller tolerance can separate points a larger one equates |
| SectionLine.LengthSymmetric | packages/section-geometry/src/primitives/line.ts:14-16 | a line and its reverse have the same length |
| SectionLine.Midpoint | packages/section-geometry/src/primitives/line.ts:21-23 | the midpoint is halfway in both coordinates |
| SectionLine.MidpointEquidistant | packages/section-geometry/src/primitives/line.ts:21-23 | the midpoint is equally far from both ends |
| SectionLine.AreaLinear | packages/section-geometry/src/primitives/line.ts:28-30 | the area is linear in the thickness, 0 at thickness 0 and non-negative for a non-negative thickness |
| SectionArc.CentreEquidistant | packages/section-geometry/src/primitives/arc.ts:28-56 | the intersection of the two perpendicular bisectors is equally far from all three points |
| SectionArc.TurnUp | packages/section-geometry/src/primitives/arc.ts:79-80 | adding full turns stops at the first angle at or above the bound, having added whole turns only |
| SectionArc.TurnDown | packages/section-geometry/src/primitives/arc.ts:82-83 | subtracting full turns stops at the first angle at or below the bound, having subtracted whole turns only |
| SectionArc.FromPoints | packages/section-geometry/src/primitives/arc.ts:28-87 | fails with CollinearPoints exactly when the absolute determinant is below 1e-12; otherwise the arc has the bisector centre, the distance to p1 as radius and p1's angle as start, and its end is p3's angle unwound past p2's angle in the direction the turn p1→p2→p3 takes |
| SectionArc.Length | packages/section-geometry/src/primitives/arc.ts:92-94 | the length is non-negative for a non-negative radius |
| SectionArc.LengthReversed | packages/section-geometry/src/primitives/arc.ts:92-94 | swapping start and end angle keeps the length |
| SectionArc.DefaultSegments | packages/section-geometry/src/primitives/arc.ts:101-103 | the default count is at least the sweep in degrees, and 0 exactly for a zero sweep |
| SectionArc.SampleAngleEnds | packages/section-geometry/src/primitives/arc.ts:106-107 | the first sample angle is the start angle and the n-th the end angle |
| SectionArc.ToPolyline | packages/section-geometry/src/primitives/arc.ts:100-116 | a zero count is reported because it yields a NaN point; otherwise there are floor(n) + 1 points, none for a negative n, each on the circle at its sample angle |
| SectionSegment.Length | packages/section-geometry/src/primitives/segment.ts:11-13 | a segment's length is its line's or its arc's, and non-negative |
| SectionSegment.GuardsExclusive | packages/section-geometry/src/primitives/segment.ts:18-23 | every segment is exactly one of line and arc |
| SectionSegment.StartPoint | packages/section-geometry/src/primitives/segment.ts:28-36 | a line starts at p1 and an arc at the circle point of its start angle |
| SectionSegment.EndPoint | packages/section-geometry/src/primitives/segment.ts:41-49 | a line ends at p2 and an arc at the circle point of its end angle |
| SectionSegment.ArcPolylineEnds | packages/section-geometry/src/primitives/segment.ts:28-49 | an arc's polyline starts at the arc's start point and ends at its end point |
| SectionContour.IsClosedProperties | packages/section-geometry/src/primitives/contour.ts:16-21 | an empty contour is never closed, and a contour closed under some tolerance stays closed under a larger one |
| SectionContour.SumLengthsAppend | packages/section-geometry/src/primitives/contour.ts:26-28 | the length of joined segment lists is the sum of their lengths |
| SectionContour.LengthNonNeg | packages/section-geometry/src/primitives/contour.ts:26-28 | the length is 0 for no segments and never negative |
| SectionContour.BoxOfTight | packages/section-geometry/src/primitives/contour.ts:34-40 | the box of no points is the infinite start box; otherwise it contains every point fed to it and each bound is some point's coordinate |
| SectionContour.IncludeAxisTurns | packages/section-geometry/src/primitives/contour.ts:66-79 | the loop over turns -2 to 2 feeds exactly the circle points whose axis angle lies between the arc's smaller and larger angle |
| SectionContour.IncludeArcExtremes | packages/section-geometry/src/primitives/contour.ts:53-80 | the loop over the four axis angles feeds their on-arc extreme points in order |
| SectionContour.IncludeSegment | packages/section-geometry/src/primitives/contour.ts:43-81 | a line feeds its two ends and an arc its start, its end and its on-arc extreme points |
| SectionContour.BoundingBox | packages/section-geometry/src/primitives/contour.ts:33-85 | the loop computes the box of everything the segments feed |
| SectionContour.FeedHasEndpoints | packages/section-geometry/src/primitives/contour.ts:42-50 | every segment's start and end point are fed to the box |
| SectionContour.BoundingBoxProperties | packages/section-geometry/src/primitives/contour.ts:33-85 | the box of a contour contains every segment's start and end, is ordered when non-empty, and is the infinite start box for no segments |
| RoundGuards.UnroundableValues | packages/round/src/utils/guards.ts:5-7 | exactly 0, NaN, both infinities and non-numbers are unroundable |
| RoundGuards.ValidFactors | packages/round/src/utils/guards.ts:13-15 | the valid factors are exactly the positive finite numbers |
| RoundDecimals.RoundedQuotient | packages/round/src/decimals.ts:34-35 | for a positive factor the quotient is the scaled rounding of the value |
| RoundDecimals.RoundToDecimals | packages/round/src/decimals.ts:21-36 | unroundable values, and a missing, non-finite or negative count, return the value unchanged; a whole count returns a number |
| RoundDecimals.Places | packages/round/src/decimals.ts:32 | the places used are the count capped at 15 |
| RoundDecimals.RoundToDecimalsSpec | packages/round/src/decimals.ts:21-36 | the result is a whole multiple of 10^-d for d = min(n, 15), within half of 10^-d of the value, and rounding it again changes nothing |
| RoundDecimals.RoundToDecimalsFloor | packages/round/src/decimals.ts:35 | the result is floor(v·10^d + 1/2) / 10^d |
| RoundDecimals.RoundToDecimalsScaled | packages/round/src/decimals.ts:32-35 | the rule is scaled rounding by 10^d |
| RoundDecimals.RoundToDecimalsCapped | packages/round/src/decimals.ts:32 | any count of 15 or more rounds like 15 |
| RoundDecimals.RoundToDecimalsHalves | packages/round/src/round.test.ts:14-37 | halves go toward positive infinity (-1.5 → -1, 1.5 → 2), and a negative count leaves 1.5 alone |
| RoundSignificant.RoundToSignificant | packages/round/src/significant.ts:22-38 | unroundable values, and a missing, non-finite or below-one count, return the value unchanged |
| RoundSignificant.RoundToSignificantSpec | packages/round/src/significant.ts:33-37 | for the magnitude M of the value the result is a whole multiple of 10^(M+1-d) within half of it, d being the count capped at 15 |
| RoundSignificant.RoundToSignificantExample | packages/round/src/significant.ts:12 | 12.555 to three significant digits is 12.6 |
| RoundSmart.SmartPlaces | packages/round/src/smart.ts:42-52 | the places lie in [0, 15], and for magnitudes >= 0 they are at least the clamped minDecimals |
| RoundSmart.RoundSmart | packages/round/src/smart.ts:31-56 | unroundable values and whole numbers are returned unchanged |
| RoundSmart.RoundSmartSpec | packages/round/src/smart.ts:42-55 | with whole options, the result is a whole multiple of 10^-d for the clamped places d, within half of 10^-d of the value |
| RoundSmart.RoundSmartDefaults | packages/round/src/smart.ts:39-40 | missing options behave as sigDigits 4 and minDecimals 2 |
| RoundSmart.RoundSmartCustomDigits | packages/round/src/round.test.ts:167-170 | 1.33333 keeps its digits with sigDigits 6 and becomes 1.33 with sigDigits 2 |
| RoundAtomic.AtomicCount | packages/round/src/atomic.ts:42-43 | the count is within 1/2 of the atomic value |
| RoundAtomic.AtomicCountOdd | packages/round/src/atomic.ts:42-43 | the symmetric rounding is odd, and it keeps whole values |
| RoundAtomic.RoundAtomic | packages/round/src/atomic.ts:28-47 | unroundable values and invalid factors return the value unchanged; a roundable value gives a number |
| RoundAtomic.RoundAtomicSpec | packages/round/src/atomic.ts:41-46 | the result is a whole count of atomic units a/t, negating the value negates the result, and a value already a whole count comes back unchanged |
| RoundAtomic.AtomicRoundTrip | packages/round/src/atomic.ts:41-44 | converting to the atomic unit and back is the identity |
| RoundAtomic.RoundAtomicExample | packages/round/src/atomic.ts:13-14 | 125.55123 cm counted in millimetres is 125.6 cm, and a zero target factor leaves the value alone |
| RoundChain.InternalValue | packages/round/src/round.ts:18 | a non-number becomes NaN, and every other value is kept |
| RoundChain.ToInteger | packages/round/src/round.ts:27-31 | unroundable values are kept, and every other number becomes a whole number within 1/2 of it |
| RoundChain.ChainOnNonNumber | packages/round/src/round.ts:16-39 | every rule of the chain returns NaN for a non-number |
| RoundChain.ToIntegerExamples | packages/round/src/round.test.ts:84-100 | 1.5 → 2, -1.5 → -1, -1.6 → -2, whole numbers, 0 and infinity unchanged |
| UnitsTable.ToBasePositive | packages/units/src/units.ts:5-64 | every unit's factor to its base unit is positive |
| UnitsTable.AtomicUnitsWellFormed | packages/units/src/units.ts:66-75 | each atomic unit is a unit of its own category with factor 1, and exactly the two force ratios have none |
| UnitsTable.SharedFactors | packages/units/src/units.ts:3-61 | kN/m and N/mm, MN/m^2 and N/mm^2, and ml and cm^3 share their factors, and gravity is 9.81 |
| UnitsTable.ConstructorNotKey | packages/units/src/units.ts:5-64 | "constructor" is not a unit name |
| UnitsParse.Trim | packages/units/src/parse.ts:19 | the trimmed string starts and ends with no whitespace |
| UnitsParse.TrimExact | packages/units/src/parse.ts:19 | trimming removes exactly the whitespace around a string with no whitespace at its ends |
| UnitsParse.TrimPadding | packages/units/src/parse.ts:19 | added leading and trailing whitespace does not change what trimming keeps |
| UnitsParse.RewriteSuperscripts | packages/units/src/parse.ts:25-27 | the loop applies the superscript rewrites in table order |
| UnitsParse.ReplaceFirstSpec | packages/units/src/parse.ts:26 | a string-pattern replace rewrites only the first occurrence |
| UnitsParse.IsPartCorrect | packages/units/src/parse.ts:10 | the greedy part reader accepts exactly letters followed by nothing or by ^ and a number without a leading 0 |
| UnitsParse.MatchesPatternCorrect | packages/units/src/parse.ts:10 | the recogniser accepts exactly one part, or two parts around a '/' |
| UnitsParse.Accept | packages/units/src/parse.ts:29-37 | a name is accepted exactly when it matches the pattern and is a unit name |
| UnitsParse.Lookup | packages/units/src/parse.ts:20-37 | a trimmed name resolves exactly when it is non-empty and its rewritten form is accepted, to that form |
| UnitsParse.Resolve | packages/units/src/parse.ts:12-41 | every failure reports UnknownUnit with the original input |
| UnitsParse.ResolveUnit | packages/units/src/parse.ts:12-41 | the step-by-step procedure computes Resolve |
| UnitsParse.ResolveText | packages/units/src/parse.ts:12-41 | a string resolves exactly when its trimmed, rewritten form is in the pattern's language and is a unit name, and then to that form |
| UnitsParse.ResolveFound | packages/units/src/parse.ts:34-40 | what resolves is a unit name the pattern accepts, namely the trimmed and rewritten input |
| UnitsParse.ResolveRejectsBlank | packages/units/src/parse.ts:13-22 | non-strings and blank strings are rejected |
| UnitsParse.ResolveIgnoresPadding | packages/units/src/parse.ts:19 | surrounding whitespace does not change which unit resolves |
| UnitsParse.ResolveIdempotent | packages/units/src/parse.ts:12-41 | a resolved name resolves to itself |
| UnitsParse.ResolveRejectsMalformed | packages/units/src/parse.ts:29-32 | a rewritten name that breaks the pattern is rejected |
| UnitsParse.ResolveRejectsUnknown | packages/units/src/parse.ts:34-37 | a rewritten name that is no unit name is rejected |
| UnitsParse.ResolveSuperscriptExample | packages/units/src/parse.ts:24-27 | "m²" resolves to "m^2" |
| UnitsParse.ResolveRejectsZeroExponent | packages/units/src/parse.ts:10 | "m^0" is rejected because an exponent starts with 1 to 9 |
| UnitsParse.ResolveAsWritten | packages/units/src/parse.ts:34-37 | the code as written fails only with UnknownUnit, but its `in` check also admits names inherited from Object.prototype |
| UnitsParse.ResolveAsWrittenDiffers | packages/units/src/parse.ts:35 | the code as written agrees with Resolve except on inherited prototype names, which only it returns |
| UnitsParse.ResolveAsWrittenAcceptsConstructor | packages/units/src/parse.ts:35 | "constructor" is no unit, yet the code as written resolves it |
| UnitsRound.DecimalPlaces | packages/units/src/round.ts:15-20 | the places give at least four significant digits and never fewer than two decimals, exactly one of the two bounds deciding |
| UnitsRound.SmartRound | packages/units/src/round.ts:4-25 | zero and whole values are returned unchanged |
| UnitsRound.SmartRoundSpec | packages/units/src/round.ts:11-24 | a fractional value becomes a whole multiple of 10^-d within half of 10^-d of it |
| UnitsRound.SmartRoundRelativeError | packages/units/src/round.ts:11-24 | the rounding error is at most 1/2000 of the value |
| UnitsRound.SmartRoundMatchesLibrary | packages/units/src/round.ts:4-25 | down to 10^-12 this is the rounding library's roundSmart with its defaults |
| UnitsRound.SmartRoundBelowLibraryCap | packages/units/src/round.ts:23 | below 10^-12 it keeps four digits where the library's cap of 15 places keeps three |
| UnitsRound.Sign | packages/units/src/round.ts:55 | the sign times the absolute value is the value |
| UnitsRound.SignedCountIsAtomicCount | packages/units/src/round.ts:54-55 | the signed count here equals the rounding library's symmetric count |
| UnitsRound.AtomicRound | packages/units/src/round.ts:46-59 | zero is returned as zero |
| UnitsRound.AtomicRoundMatchesLibrary | packages/units/src/round.ts:46-59 | with positive factors this is the rounding library's roundAtomic |
| UnitsRound.AtomicRoundSpec | packages/units/src/round.ts:51-58 | the result is a whole count of atomic units a/t at most half a unit from the value, odd in the value, and unchanged when the value already is a whole count |
| UnitsRound.AtomicRoundExample | packages/units/src/round.ts:30-33 | ±125.55123 cm counted in millimetres is ±125.6 cm |
| UnitsConvert.CompatibilityLaws | packages/units/src/convert.ts:7-17 | compatibility is reflexive and symmetric, and mass with force is the only cross-category pair |
| UnitsConvert.RoundResult | packages/units/src/convert.ts:19-36 | categories with an atomic unit use atomic rounding in the target unit, and the force ratios use smart rounding |
| UnitsConvert.Convert | packages/units/src/convert.ts:38-41 | a chain starts exactly for a finite number, otherwise InvalidValue carries the value |
| UnitsConvert.From | packages/units/src/convert.ts:44-46 | a started chain carries the value and a unit name from the table |
| UnitsConvert.InvalidValueFirst | packages/units/src/convert.ts:38-41 | an invalid value is reported before either unit is looked at |
| UnitsConvert.UnknownUnitsNext | packages/units/src/convert.ts:44-51 | then an unknown source unit is reported, then an unknown target unit |
| UnitsConvert.KnownUnits | packages/units/src/convert.ts:44-82 | with both units known, the chain is the conversion between their names |
| UnitsConvert.IncompatibleReported | packages/units/src/convert.ts:53-59 | the conversion fails exactly for incompatible categories, reporting both names and both categories |
| UnitsConvert.SameCategory | packages/units/src/convert.ts:78-81 | within a category the value goes through the base unit and is then rounded in the target unit |
| UnitsConvert.SameUnit | packages/units/src/convert.ts:78-81 | converting to the same unit only rounds |
| UnitsConvert.MassToForce | packages/units/src/convert.ts:61-67 | mass to force multiplies grams by 9.81/1000 to get newtons and then rounds smartly |
| UnitsConvert.ForceToMass | packages/units/src/convert.ts:69-76 | force to mass rounds to whole grams before the target unit is applied |

## Left out

- Floating point is not modelled. Numbers are exact reals. Rounding error, overflow, and NaN or Infinity arising inside the geometry arithmetic are outside the model.
- Transcendental functions (`sqrt`, `sin`, `cos`, `atan2`, `acos`, `log10`, and `10 **` with a non-integral exponent) are uninterpreted. Only the laws of the square root and the arc cosine are used, as preconditions.
- GeoPoint.Rotate, GeoVector.Rotate, GeoVector.Angle, GeoLine.Rotate, GeoLine.Angle, GeoArc.Midpoint, GeoArc.StartPoint, GeoArc.EndPoint, GeoArc.NormalAt, GeoArc.NormalAtPoint: modelled as definitions over the uninterpreted trigonometry, with no further property. The exception is that a rotation fixes its origin.
- GeoArc.IntersectArcFull, GeoArc.IntersectArc: require a positive radius for the first arc, the invariant `fromCenter` enforces. With radius 0 the source divides 0 by 0. The computed points are not proved to lie on both circles, because they come from `cos`/`sin`.
- GeoArc.IntersectLine, GeoArc.IntersectArc: the contract says which points are kept and that no more are returned. It does not say that the kept points stay in their original order.
- GeoArc.ToPolyline, GeoArc.SegmentCount: with a tolerance they require a positive radius, which every arc constructor enforces. Outside that range the source behaves as follows, and the model does not cover it. For radius 0, `tolerance / 0` is +Infinity, the clamp gives `acos(-1)` = π, and the count is 2, so three points at the centre are returned. For a negative radius the clamp gives `acos(1)` = 0. With a positive sweep the loop bound is then +Infinity and the loop does not end. With a zero sweep the bound is `0 / 0` = NaN and no point is returned.
- GeoArc.IntersectLineFullOnCircle: the tangent point is proved on the circle only when the discriminant is exactly 0. For a discriminant in (0, 1e-10) it lies only approximately on the circle.
- GeoPolygon.Centroid: requires at least one point. The source returns `undefined` for an empty polygon.
- GeoLine.ChainLines: requires at least one line. Its callers handle the empty list themselves.
- Polygon.intersect, Polygon.union and Polygon.subtract delegate to the external `martinez-polygon-clipping` library, which is not part of this model. Only the conversion to and from its ring format is modelled (`GeoPolygon.ToRing`, `GeoPolygon.FromRing`).
- The `make` functions and Arc.fromCenter of the section geometry build records without checks. Their datatype constructors model them.
- SectionArc.ToPolyline: a segment count of 0 is reported as `NaNPoints`, because the source then produces one point with NaN coordinates.
- SectionContour.BoundingBox: the unused variables `normalizedStart`/`normalizedEnd` (contour.ts:55-58) have no effect on the result and are not modelled.
- RoundAtomic.RoundAtomic: returns the exact quotient. The final `parseFloat(result.toPrecision(12))` (packages/round/src/atomic.ts:46) is not modelled. It rounds every result to 12 significant digits, so the model differs from the source whenever the quotient has more than 12 significant digits. For example, `roundAtomic(1234567890123, 1, 1)` is 1234567890120 in the source and 1234567890123 in the model.
- UnitsRound.AtomicRound: returns the exact quotient, without the final rounding to 12 significant digits (packages/units/src/round.ts:58). It differs from the source in the same cases as RoundAtomic.RoundAtomic.
- UnitsConvert.ForceToMass: returns the exact quotient, without the final rounding to 12 significant digits (packages/units/src/convert.ts:75). For example, 2000000 MN to g is 203873598369000 in the source and 203873598369011 in the model.
- RoundAtomic.RoundAtomicSpec, UnitsRound.AtomicRoundSpec: they are stated for the value before the rounding to 12 significant digits. In the source, "a whole count comes back unchanged" holds only for counts with at most 12 significant digits.
- RoundDecimals.RoundToDecimalsSpec: stated for whole digit counts only. A fractional count gives `10 ** n` with a non-integral exponent, which is left to the uninterpreted power.
- RoundSignificant.RoundToSignificantSpec: stated for whole digit counts only, for the same reason.
- RoundSmart.RoundSmartSpec: stated for whole option values only, for the same reason.
- JavaScript's `typeof` checks are modelled by value kinds. The rounding functions see a `JsValue` (a finite number, NaN, ±Infinity or a non-number). `resolveUnit` sees a string or `NotText`.
- Error messages are modelled as error values carrying the data the message shows, not as formatted strings. The exception is the fixed German messages of polylines and polygons, which are kept verbatim.

## Findings

| source | as written | input that shows it | evidently intended | confidence | as-written member | corrected member |
|---|---|---|---|---|---|---|
| packages/units/src/parse.ts:35 | `result in UNITS` also finds the names a plain object inherits from `Object.prototype` | `resolveUnit("constructor")` returns `"constructor"`, which has no unit definition | only the table's own unit names resolve | high, not executed | UnitsParse.ResolveAsWrittenAcceptsConstructor | UnitsParse.ResolveFound |
