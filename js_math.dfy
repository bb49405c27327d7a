// Numeric vocabulary shared by every package: JavaScript numbers are modelled
// as exact reals, and the parts of the JavaScript `Math` object the code uses
// are written out here (`Math.round`, `Math.ceil`, the `%` operator, powers
// of ten and the decimal magnitude).  Transcendental functions are not
// computable over reals, so they travel as a `Libm` value whose laws are
// stated separately and required only where a proof needs them.

module Wrappers {
  datatype Option<T> = None | Some(value: T)

  datatype Result<T, E> = Ok(value: T) | Err(error: E)
  {
    predicate IsOk() { Ok? }
  }
}

module Sequences {
  /** `Array.prototype.filter`: the elements that pass `keep`, in their order. */
  function Filter<T(!new)>(s: seq<T>, keep: T -> bool): (r: seq<T>)
    ensures |r| <= |s|
    ensures forall x :: x in r <==> x in s && keep(x)
  {
    if s == [] then []
    else if keep(s[0]) then [s[0]] + Filter(s[1..], keep)
    else Filter(s[1..], keep)
  }

  /** `Array.prototype.map`. */
  function Map<T, U>(s: seq<T>, f: T -> U): (r: seq<U>)
    ensures |r| == |s|
    ensures forall i :: 0 <= i < |s| ==> r[i] == f(s[i])
  {
    if s == [] then [] else [f(s[0])] + Map(s[1..], f)
  }

  /** `[...s].reverse()`. */
  function Reverse<T>(s: seq<T>): (r: seq<T>)
    ensures |r| == |s|
    ensures forall i :: 0 <= i < |s| ==> r[i] == s[|s| - 1 - i]
  {
    if s == [] then [] else Reverse(s[1..]) + [s[0]]
  }

  lemma ReverseInvolution<T>(s: seq<T>)
    ensures Reverse(Reverse(s)) == s
  {
  }
}

module JsMath {
  /** The decimal value of the double `Math.PI`. */
  const PI: real := 3.141592653589793
  const TWO_PI: real := 2.0 * PI

  /** Tolerance used for angles, determinants and discriminants. */
  const TOL: real := 1.0e-10
  /** Tolerance used for squared lengths. */
  const TOL_SQ: real := 1.0e-14

  /** The transcendental functions of `Math`, supplied by the caller. */
  datatype Libm = Libm(
    sqrt: real -> real,
    sin: real -> real,
    cos: real -> real,
    atan2: (real, real) -> real,
    acos: real -> real,
    /** `10 ** x` for an exponent that is not a whole number. */
    pow10: real -> real)

  /** The only facts about `Math.sqrt` that the proofs use. */
  ghost predicate SqrtLaw(m: Libm)
  {
    forall x :: 0.0 <= x ==> 0.0 <= m.sqrt(x) && Sq(m.sqrt(x)) == x
  }

  /** `Math.acos` is positive below 1, so a chord angle is never zero. */
  ghost predicate AcosLaw(m: Libm)
  {
    forall x :: -1.0 <= x < 1.0 ==> 0.0 < m.acos(x)
  }

  lemma SqrtZero(m: Libm)
    requires SqrtLaw(m)
    ensures m.sqrt(0.0) == 0.0
  {
    SqZero(m.sqrt(0.0));
  }

  lemma SqrtOfSquare(m: Libm, x: real)
    requires SqrtLaw(m)
    ensures m.sqrt(Sq(x)) == Abs(x)
  {
    SquareNonNeg(x);
    SqAbs(x);
    SquareInjective(m.sqrt(Sq(x)), Abs(x));
  }

  lemma SqrtMonotone(m: Libm, x: real, y: real)
    requires SqrtLaw(m)
    requires 0.0 <= x <= y
    ensures m.sqrt(x) <= m.sqrt(y)
  {
    if m.sqrt(x) > m.sqrt(y) {
      SquareStrict(m.sqrt(y), m.sqrt(x));
    }
  }

  function Sq(d: real): real
  {
    d * d
  }

  function Mul(a: real, b: real): real
  {
    a * b
  }

  lemma MulPos(a: real, b: real)
    requires 0.0 < a && 0.0 < b
    ensures 0.0 < Mul(a, b)
  {
  }

  lemma MulNonNeg(a: real, b: real)
    requires 0.0 <= a && 0.0 <= b
    ensures 0.0 <= Mul(a, b)
  {
  }

  lemma SqNeg(a: real)
    ensures Mul(-a, -a) == Sq(a) && Sq(-a) == Sq(a)
  {
  }

  lemma SqAbs(a: real)
    ensures Sq(Abs(a)) == Sq(a)
  {
    SqNeg(a);
  }

  lemma SquarePos(a: real)
    requires a != 0.0
    ensures 0.0 < Sq(a)
  {
    if a > 0.0 {
      MulPos(a, a);
    } else {
      MulPos(-a, -a);
      SqNeg(a);
    }
  }

  lemma SquareNonNeg(a: real)
    ensures 0.0 <= Sq(a)
  {
    if a != 0.0 {
      SquarePos(a);
    }
  }

  lemma SqZero(a: real)
    requires Sq(a) == 0.0
    ensures a == 0.0
  {
    if a != 0.0 {
      SquarePos(a);
    }
  }

  lemma SquareStrict(a: real, b: real)
    requires 0.0 <= a < b
    ensures Sq(a) < Sq(b)
  {
    var x, y, z := a * a, a * b, b * b;
    assert x <= y;
    assert y < z;
  }

  lemma SquareInjective(a: real, b: real)
    requires 0.0 <= a && 0.0 <= b && Sq(a) == Sq(b)
    ensures a == b
  {
    if a < b {
      SquareStrict(a, b);
    } else if b < a {
      SquareStrict(b, a);
    }
  }

  lemma MulAddRight(a: real, x: real, y: real)
    ensures Mul(a, x) + Mul(a, y) == Mul(a, x + y)
  {
  }

  lemma MulAddLeft(x: real, y: real, a: real)
    ensures Mul(x, a) + Mul(y, a) == Mul(x + y, a)
  {
  }

  lemma MulCancelOne(s: real, l: real)
    requires l != 0.0 && Mul(s, l) == l
    ensures s == 1.0
  {
    var x := s * l;
    assert (s - 1.0) * l == x - l;
  }

  lemma MulSquareAssoc(s: real, d: real)
    ensures Mul(Mul(s, d), d) == Mul(s, Sq(d))
  {
  }

  lemma MulDivCancel(x: real, l: real)
    requires l != 0.0
    ensures Mul(x / l, l) == x && Mul(x, l) / l == x
  {
  }

  function Abs(x: real): (r: real)
    ensures 0.0 <= r && (r == x || r == -x)
  {
    if x < 0.0 then -x else x
  }

  function Min(a: real, b: real): (r: real)
    ensures r <= a && r <= b && (r == a || r == b)
  {
    if a <= b then a else b
  }

  function Max(a: real, b: real): (r: real)
    ensures a <= r && b <= r && (r == a || r == b)
  {
    if a >= b then a else b
  }

  function MaxInt(a: int, b: int): (r: int)
    ensures a <= r && b <= r && (r == a || r == b)
  {
    if a >= b then a else b
  }

  /** `Math.max(lo, Math.min(hi, x))`. */
  function Clamp(lo: real, hi: real, x: real): (r: real)
    requires lo <= hi
    ensures lo <= r <= hi
    ensures lo <= x <= hi ==> r == x
    ensures lo < hi && x < hi ==> r < hi
  {
    Max(lo, Min(hi, x))
  }

  function IsIntegral(x: real): bool
  {
    x.Floor as real == x
  }

  /** Truncation toward zero, the quotient rule of JavaScript's `%`. */
  function Trunc(x: real): (r: int)
    ensures Abs(r as real) <= Abs(x) < Abs(r as real) + 1.0
    ensures (0.0 <= x ==> 0 <= r) && (x <= 0.0 ==> r <= 0)
  {
    if x >= 0.0 then x.Floor else -((-x).Floor)
  }

  /** `Math.ceil`. */
  function Ceil(x: real): (r: int)
    ensures x <= r as real < x + 1.0
  {
    -((-x).Floor)
  }

  /** `Math.round`: halves go toward positive infinity. */
  function Round(x: real): (r: int)
    ensures x - 0.5 < r as real <= x + 0.5
  {
    (x + 0.5).Floor
  }

  lemma RoundIntegral(k: int)
    ensures Round(k as real) == k
  {
  }

  /** JavaScript's `a % b` on finite numbers: the sign follows `a`. */
  function JsRem(a: real, b: real): (r: real)
    requires b != 0.0
  {
    a - b * Trunc(a / b) as real
  }

  /** A whole number of turns. */
  function Turns(k: int): real
  {
    k as real * TWO_PI
  }

  lemma JsRemBounds(a: real, b: real)
    requires 0.0 < b
    ensures -b < JsRem(a, b) < b
    ensures 0.0 <= a ==> 0.0 <= JsRem(a, b)
  {
    if a >= 0.0 {
      assert a / b >= 0.0;
      RemAbove(a, b, Trunc(a / b) as real);
    } else {
      assert a / b < 0.0;
      RemBelow(a, b, Trunc(a / b) as real);
    }
  }

  lemma RemAbove(a: real, b: real, t: real)
    requires 0.0 < b && t <= a / b < t + 1.0
    ensures 0.0 <= a - b * t < b
  {
    var q := a / b;
    var f := q - t;
    ScaledFraction(b, f);
    var x, y, z := b * f, b * q, b * t;
    assert y == a;
    assert x == y - z;
  }

  lemma RemBelow(a: real, b: real, t: real)
    requires 0.0 < b && t - 1.0 < a / b <= t
    ensures -b < a - b * t <= 0.0
  {
    var q := a / b;
    var f := t - q;
    ScaledFraction(b, f);
    var x, y, z := b * f, b * q, b * t;
    assert y == a;
    assert x == z - y;
  }

  lemma ScaledFraction(b: real, f: real)
    requires 0.0 < b && 0.0 <= f < 1.0
    ensures 0.0 <= b * f < b
  {
  }

  /** `10 ** k` for any whole exponent. */
  function Pow10(k: int): (r: real)
    ensures 0.0 < r
    decreases if k >= 0 then k else -k
  {
    if k == 0 then 1.0
    else if k > 0 then 10.0 * Pow10(k - 1)
    else Pow10(k + 1) / 10.0
  }

  lemma {:induction false} Pow10Succ(k: int)
    ensures Pow10(k + 1) == 10.0 * Pow10(k)
  {
  }

  lemma {:induction false} Pow10Monotone(a: int, b: int)
    requires a <= b
    ensures Pow10(a) <= Pow10(b)
    decreases b - a
  {
    if a < b {
      Pow10Monotone(a + 1, b);
      Pow10Succ(a);
    }
  }

  lemma Pow10NonNegInt(k: nat)
    ensures IsIntegral(Pow10(k)) && 1.0 <= Pow10(k)
  {
    if k > 0 {
      Pow10NonNegInt(k - 1);
      var p := Pow10(k - 1);
      assert p == p.Floor as real;
      assert 10.0 * p == (10 * p.Floor) as real;
    }
  }

  /**
   * `Math.floor(Math.log10(v))` over exact reals: the unique m with
   * 10^m <= v < 10^(m+1).
   */
  function Magnitude(v: real): (m: int)
    requires 0.0 < v
    ensures Pow10(m) <= v < Pow10(m + 1)
    decreases if v >= 10.0 then v.Floor else if v < 1.0 then (1.0 / v).Floor else 0
  {
    if v >= 10.0 then
      MagnitudeDownStep(v);
      Pow10Succ(Magnitude(v / 10.0));
      Pow10Succ(Magnitude(v / 10.0) + 1);
      Magnitude(v / 10.0) + 1
    else if v < 1.0 then
      MagnitudeUpStep(v);
      Pow10Succ(Magnitude(v * 10.0) - 1);
      Magnitude(v * 10.0) - 1
    else
      0
  }

  lemma MagnitudeDownStep(v: real)
    requires 10.0 <= v
    ensures (v / 10.0).Floor < v.Floor
    ensures v / 10.0 >= 10.0 ==> 0 <= (v / 10.0).Floor
  {
  }

  lemma MagnitudeUpStep(v: real)
    requires 0.0 < v < 1.0
    ensures 0 <= (1.0 / (v * 10.0)).Floor < (1.0 / v).Floor
  {
    var w := 1.0 / v;
    assert w > 1.0;
    assert 1.0 / (v * 10.0) == w / 10.0;
  }

  lemma MagnitudeUnique(v: real, m: int)
    requires 0.0 < v
    requires Pow10(m) <= v < Pow10(m + 1)
    ensures Magnitude(v) == m
  {
    var k := Magnitude(v);
    if k < m {
      Pow10Monotone(k + 1, m);
    } else if k > m {
      Pow10Monotone(m + 1, k);
    }
  }

  /** The extended reals used for bounding boxes that start at +-Infinity. */
  datatype Ext = NegInf | Fin(r: real) | PosInf

  predicate ExtLe(a: Ext, b: Ext)
  {
    match (a, b)
    case (NegInf, _) => true
    case (_, PosInf) => true
    case (Fin(x), Fin(y)) => x <= y
    case _ => false
  }

  /** `Math.min` on extended reals. */
  function ExtMin(a: Ext, b: Ext): (r: Ext)
    ensures ExtLe(r, a) && ExtLe(r, b) && (r == a || r == b)
  {
    if ExtLe(a, b) then a else b
  }

  /** `Math.max` on extended reals. */
  function ExtMax(a: Ext, b: Ext): (r: Ext)
    ensures ExtLe(a, r) && ExtLe(b, r) && (r == a || r == b)
  {
    if ExtLe(a, b) then b else a
  }

  lemma ExtLeTrans(a: Ext, b: Ext, c: Ext)
    requires ExtLe(a, b) && ExtLe(b, c)
    ensures ExtLe(a, c)
  {
  }

  /** A JavaScript value as the number guards see it: a finite number, NaN, an infinity, or no number at all. */
  datatype JsValue = Num(r: real) | NaN | Infinity | NegInfinity | NotNumber

  /** `10 ** x`: exact for whole exponents, the library's value otherwise. */
  function Exp10(m: Libm, x: real): (r: real)
    ensures IsIntegral(x) ==> r == Pow10(x.Floor) && 0.0 < r
  {
    if IsIntegral(x) then Pow10(x.Floor) else m.pow10(x)
  }

  /** JavaScript's `a / b`: dividing by zero gives an infinity, or NaN for 0 / 0. */
  function JsDiv(a: real, b: real): (r: JsValue)
    ensures b != 0.0 ==> r == Num(a / b)
    ensures b == 0.0 ==> !r.Num?
  {
    if b != 0.0 then Num(a / b)
    else if a > 0.0 then Infinity
    else if a < 0.0 then NegInfinity
    else NaN
  }

  /** `Math.round(v * f) / f`: v rounded to a whole multiple of 1 / f. */
  function ScaledRound(v: real, f: real): real
    requires f != 0.0
  {
    Round(Mul(v, f)) as real / f
  }

  lemma DivBound(e: real, f: real)
    requires 0.0 < f && Abs(Mul(e, f)) <= 0.5
    ensures Abs(e) <= 1.0 / (2.0 * f)
  {
    var a := Abs(e) * f;
    assert Abs(Mul(e, f)) == a;
    assert Abs(e) == a / f;
    QuotientMonotone(a, 0.5, f);
    assert 0.5 / f == 1.0 / (2.0 * f);
  }

  lemma QuotientMonotone(a: real, b: real, f: real)
    requires 0.0 < f && a <= b
    ensures a / f <= b / f
  {
  }

  /**
   * Rounding to a whole multiple of 1 / f: the result times f is the rounded
   * whole number, it lies within 1 / (2f) of v, and rounding it again
   * changes nothing.
   */
  lemma ScaledRoundProperties(v: real, f: real)
    requires 0.0 < f
    ensures Mul(ScaledRound(v, f), f) == Round(Mul(v, f)) as real
    ensures IsIntegral(Mul(ScaledRound(v, f), f))
    ensures Abs(ScaledRound(v, f) - v) <= 1.0 / (2.0 * f)
    ensures ScaledRound(ScaledRound(v, f), f) == ScaledRound(v, f)
  {
    var x := Mul(v, f);
    var k := Round(x);
    var q := k as real;
    MulDivCancel(q, f);
    RoundIntegral(k);
    var e := q / f - v;
    var a, b := e * f, (q / f) * f;
    assert a == b - x;
    DivBound(e, f);
  }

  /** A whole multiple of 1 / f is left as it is. */
  lemma ScaledRoundOfMultiple(k: int, f: real)
    requires 0.0 < f
    ensures ScaledRound(k as real / f, f) == k as real / f
  {
    MulDivCancel(k as real, f);
    RoundIntegral(k);
  }
}
