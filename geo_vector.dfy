// Free vectors of the 2D geometry kernel.

module GeoVector {
  import opened Wrappers
  import opened JsMath
  import opened GeoTypes
  import opened GeoErrors
  import GeoPoint

  /** The vector from a to b. */
  function FromPoints(a: Point, b: Point): Vector
  {
    Vector(b.x - a.x, b.y - a.y)
  }

  lemma TranslateFromPoints(a: Point, b: Point)
    ensures GeoPoint.Translate(a, FromPoints(a, b)) == b
  {
  }

  function SqLength(v: Vector): (r: real)
    ensures 0.0 <= r
  {
    SquareNonNeg(v.dx);
    SquareNonNeg(v.dy);
    Sq(v.dx) + Sq(v.dy)
  }

  function Length(m: Libm, v: Vector): real
  {
    m.sqrt(SqLength(v))
  }

  /** The unit vector of v; a vector shorter than TOL_SQ cannot be normalised. */
  function Normalize(m: Libm, v: Vector): (r: Result<Vector, GeoError>)
    ensures r.Err? <==> Length(m, v) < TOL_SQ
    ensures r.Err? ==> r.error == DegenerateVector
  {
    var len := Length(m, v);
    if len < TOL_SQ then Err(DegenerateVector)
    else Ok(Vector(v.dx / len, v.dy / len))
  }

  lemma SqQuotient(a: real, l: real)
    requires l != 0.0
    ensures Mul(Sq(a / l), Sq(l)) == Sq(a)
  {
    var q := a / l;
    var ql := q * l;
    assert ql == a;
    assert Sq(ql) == Sq(a);
    assert Mul(Sq(q), Sq(l)) == Sq(ql);
  }

  /**
   * A normalised vector has length one and points the same way as v: their
   * cross product is zero and their dot product is |v| > 0.
   */
  lemma NormalizeUnit(m: Libm, v: Vector)
    requires SqrtLaw(m)
    requires Normalize(m, v).Ok?
    ensures SqLength(Normalize(m, v).value) == 1.0
    ensures Cross(v, Normalize(m, v).value) == 0.0
    ensures 0.0 < Dot(v, Normalize(m, v).value)
  {
    var len := Length(m, v);
    var n := SqLength(v);
    assert Sq(len) == n;
    SquarePos(len);
    var u := Normalize(m, v).value;
    SqQuotient(v.dx, len);
    SqQuotient(v.dy, len);
    MulAddLeft(Sq(u.dx), Sq(u.dy), Sq(len));
    MulCancelOne(SqLength(u), Sq(len));
    assert Mul(v.dx, u.dy) == Mul(v.dy, u.dx);
    assert Dot(v, u) == n / len;
  }

  function Add(a: Vector, b: Vector): Vector
  {
    Vector(a.dx + b.dx, a.dy + b.dy)
  }

  function Subtract(a: Vector, b: Vector): Vector
  {
    Vector(a.dx - b.dx, a.dy - b.dy)
  }

  function Scale(v: Vector, factor: real): Vector
  {
    Vector(Mul(v.dx, factor), Mul(v.dy, factor))
  }

  function Negate(v: Vector): Vector
  {
    Vector(-v.dx, -v.dy)
  }

  function Dot(a: Vector, b: Vector): real
  {
    Mul(a.dx, b.dx) + Mul(a.dy, b.dy)
  }

  function Cross(a: Vector, b: Vector): real
  {
    Mul(a.dx, b.dy) - Mul(a.dy, b.dx)
  }

  /** `Math.atan2(dy, dx)`. */
  function Angle(m: Libm, v: Vector): real
  {
    m.atan2(v.dy, v.dx)
  }

  function Rotate(m: Libm, v: Vector, angle: real): Vector
  {
    Vector(v.dx * m.cos(angle) - v.dy * m.sin(angle), v.dx * m.sin(angle) + v.dy * m.cos(angle))
  }

  /** The vector turned a quarter counter-clockwise. */
  function Perpendicular(v: Vector): Vector
  {
    Vector(-v.dy, v.dx)
  }

  lemma DotCrossLaws(a: Vector, b: Vector)
    ensures Dot(a, b) == Dot(b, a)
    ensures Cross(a, b) == -Cross(b, a)
    ensures Cross(a, a) == 0.0
  {
  }

  lemma PerpendicularLaws(v: Vector)
    ensures Dot(v, Perpendicular(v)) == 0.0
    ensures Cross(v, Perpendicular(v)) == SqLength(v)
    ensures Perpendicular(Perpendicular(v)) == Negate(v)
  {
  }

  lemma AddSubtractLaws(a: Vector, b: Vector)
    ensures Add(a, b) == Add(b, a)
    ensures Subtract(Add(a, b), b) == a
    ensures Negate(a) == Scale(a, -1.0)
  {
  }
}
