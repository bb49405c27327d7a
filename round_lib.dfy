// The rounding library: two guards on JavaScript numbers and four rounding
// rules (to decimal places, to significant digits, "smart" rounding and
// rounding through an atomic unit), reached through a chain object.  Numbers
// are exact reals; `Math.round` is Floor(x + 1/2), `10 ** k` is Pow10 and
// `Math.floor(Math.log10(|v|))` is Magnitude, all from JsMath.

module RoundGuards {
  import opened JsMath

  /** `isUnroundable`: true for anything that is not a finite, non-zero number. */
  predicate IsUnroundable(v: JsValue)
  {
    !v.Num? || v.r == 0.0
  }

  /** `isValidFactor`: a finite number above zero. */
  predicate IsValidFactor(f: JsValue)
  {
    f.Num? && f.r > 0.0
  }

  /**
   * The values left alone are exactly 0, NaN, both infinities and
   * non-numbers; every finite non-zero number is roundable.
   */
  lemma UnroundableValues(v: JsValue)
    ensures IsUnroundable(v) <==> v in {Num(0.0), NaN, Infinity, NegInfinity, NotNumber}
    ensures v.Num? && v.r != 0.0 ==> !IsUnroundable(v)
  {
  }

  /** The valid factors are exactly the positive finite numbers; 0 and negatives are refused. */
  lemma ValidFactors(f: JsValue)
    ensures IsValidFactor(f) <==> exists x :: 0.0 < x && f == Num(x)
    ensures f.Num? && f.r <= 0.0 ==> !IsValidFactor(f)
  {
    if IsValidFactor(f) {
      assert 0.0 < f.r && f == Num(f.r);
    }
  }
}

module RoundDecimals {
  import opened JsMath
  import opened RoundGuards

  /** The largest number of decimal places used. */
  const MAX_DECIMALS: real := 15.0

  /** The result of `Math.round(value * factor) / factor` in JavaScript. */
  function RoundedQuotient(value: real, factor: real): (r: JsValue)
    ensures 0.0 < factor ==> r == Num(ScaledRound(value, factor))
  {
    JsDiv(Round(Mul(value, factor)) as real, factor)
  }

  /**
   * `roundToDecimals`: unroundable values and a missing, non-finite or
   * negative count are returned as they are; the count is capped at 15.
   */
  function RoundToDecimals(m: Libm, value: JsValue, n: JsValue): (r: JsValue)
    ensures IsUnroundable(value) ==> r == value
    ensures !n.Num? || n.r < 0.0 ==> r == value
    ensures !IsUnroundable(value) && n.Num? && 0.0 <= n.r && IsIntegral(n.r) ==> r.Num?
  {
    if IsUnroundable(value) then value
    else if !n.Num? || n.r < 0.0 then value
    else
      var decimalPlaces := Min(n.r, MAX_DECIMALS);
      var factor := Exp10(m, decimalPlaces);
      RoundedQuotient(value.r, factor)
  }

  /** The number of places actually used for a whole count n >= 0. */
  function Places(n: real): (d: nat)
    requires 0.0 <= n && IsIntegral(n)
    ensures d as real == Min(n, MAX_DECIMALS) && d <= 15
  {
    if n <= MAX_DECIMALS then n.Floor else 15
  }

  /**
   * For a whole count n >= 0 and d = min(n, 15): the result is a whole
   * multiple of 10^-d, it is within half of 10^-d of the value, and rounding
   * it again changes nothing.
   */
  lemma RoundToDecimalsSpec(m: Libm, v: real, n: real)
    requires v != 0.0 && 0.0 <= n && IsIntegral(n)
    ensures var f := Pow10(Places(n));
      var r := RoundToDecimals(m, Num(v), Num(n));
      r.Num? && IsIntegral(Mul(r.r, f)) &&
      Abs(r.r - v) <= 1.0 / (2.0 * f) &&
      RoundToDecimals(m, r, Num(n)) == r
  {
    var f := Pow10(Places(n));
    RoundToDecimalsScaled(m, v, n);
    var x := ScaledRound(v, f);
    ScaledRoundProperties(v, f);
    if x != 0.0 {
      RoundToDecimalsScaled(m, x, n);
    }
  }

  /** The result is Floor(v * 10^d + 1/2) / 10^d, so halves go toward positive infinity. */
  lemma RoundToDecimalsFloor(m: Libm, v: real, n: real)
    requires v != 0.0 && 0.0 <= n && IsIntegral(n)
    ensures var f := Pow10(Places(n));
      RoundToDecimals(m, Num(v), Num(n)) == Num((Mul(v, f) + 0.5).Floor as real / f)
  {
    RoundToDecimalsScaled(m, v, n);
  }

  /** The decimal rule is ScaledRound by 10^d. */
  lemma RoundToDecimalsScaled(m: Libm, v: real, n: real)
    requires v != 0.0 && 0.0 <= n && IsIntegral(n)
    ensures RoundToDecimals(m, Num(v), Num(n)) == Num(ScaledRound(v, Pow10(Places(n))))
  {
    assert Exp10(m, Min(n, MAX_DECIMALS)) == Pow10(Places(n));
  }

  /** Counts above 15 round exactly like 15. */
  lemma RoundToDecimalsCapped(m: Libm, value: JsValue, n: real)
    requires 15.0 <= n
    ensures RoundToDecimals(m, value, Num(n)) == RoundToDecimals(m, value, Num(MAX_DECIMALS))
  {
  }

  /** Halves go toward positive infinity: -1.5 at 0 places gives -1, 1.5 gives 2. */
  lemma RoundToDecimalsHalves(m: Libm)
    ensures RoundToDecimals(m, Num(-1.5), Num(0.0)) == Num(-1.0)
    ensures RoundToDecimals(m, Num(1.5), Num(0.0)) == Num(2.0)
    ensures RoundToDecimals(m, Num(1.5), Num(-1.0)) == Num(1.5)
  {
    assert Exp10(m, 0.0) == 1.0;
    assert Round(Mul(-1.5, 1.0)) == -1;
    assert Round(Mul(1.5, 1.0)) == 2;
  }
}

module RoundSignificant {
  import opened JsMath
  import opened RoundGuards
  import RoundDecimals

  /** The largest number of significant digits used. */
  const MAX_DIGITS: real := 15.0

  /**
   * `roundToSignificant`: unroundable values and a missing, non-finite or
   * below-one count are returned as they are; the count is capped at 15 and
   * the scale factor is 10^(n - m - 1) for the decimal magnitude m of |v|.
   */
  function RoundToSignificant(m: Libm, value: JsValue, n: JsValue): (r: JsValue)
    ensures IsUnroundable(value) ==> r == value
    ensures !n.Num? || n.r < 1.0 ==> r == value
  {
    if IsUnroundable(value) then value
    else if !n.Num? || n.r < 1.0 then value
    else
      var sigDigits := Min(n.r, MAX_DIGITS);
      var magnitude := Magnitude(Abs(value.r));
      var factor := Exp10(m, sigDigits - magnitude as real - 1.0);
      RoundDecimals.RoundedQuotient(value.r, factor)
  }

  /**
   * For a whole count n >= 1, d = min(n, 15) and the unique M with
   * 10^M <= |v| < 10^(M+1): the result is v rounded to a whole multiple of
   * 10^(M + 1 - d), possibly a positive power of ten, within half of it.
   */
  lemma RoundToSignificantSpec(m: Libm, v: real, n: real, mag: int)
    requires v != 0.0 && 1.0 <= n && IsIntegral(n)
    requires Pow10(mag) <= Abs(v) < Pow10(mag + 1)
    ensures var d := RoundDecimals.Places(n);
      var f := Pow10(d - mag - 1);
      var r := RoundToSignificant(m, Num(v), Num(n));
      r == Num(ScaledRound(v, f)) &&
      IsIntegral(Mul(r.r, f)) &&
      Abs(r.r - v) <= 1.0 / (2.0 * f)
  {
    MagnitudeUnique(Abs(v), mag);
    var d := RoundDecimals.Places(n);
    var e := Min(n, MAX_DIGITS) - mag as real - 1.0;
    assert e == (d - mag - 1) as real;
    assert IsIntegral(e) && e.Floor == d - mag - 1;
    ScaledRoundProperties(v, Pow10(d - mag - 1));
  }

  /** 12.555 at three significant digits is 12.6. */
  lemma RoundToSignificantExample(m: Libm)
    ensures RoundToSignificant(m, Num(12.555), Num(3.0)) == Num(12.6)
  {
    assert Pow10(1) == 10.0 && Pow10(2) == 100.0;
    MagnitudeUnique(12.555, 1);
    assert Exp10(m, 3.0 - 1.0 - 1.0) == 10.0;
    assert Round(Mul(12.555, 10.0)) == 126;
  }
}

module RoundSmart {
  import opened Wrappers
  import opened JsMath
  import opened RoundGuards
  import RoundDecimals

  /** `SmartOptions`: both fields may be left out. */
  datatype SmartOptions = SmartOptions(sigDigits: Option<real>, minDecimals: Option<real>)

  const DEFAULT_SIG_DIGITS: real := 4.0
  const DEFAULT_MIN_DECIMALS: real := 2.0

  function OrDefault(o: Option<real>, default: real): real
  {
    if o.Some? then o.value else default
  }

  /**
   * The number of decimal places: at least minDecimals for values of
   * magnitude >= 0, sigDigits - magnitude - 1 otherwise, then clamped into
   * [0, 15].
   */
  function SmartPlaces(magnitude: int, sigDigits: real, minDecimals: real): (d: real)
    ensures 0.0 <= d <= 15.0
    ensures magnitude >= 0 && minDecimals <= 15.0 ==> Min(Max(minDecimals, 0.0), 15.0) <= d
  {
    var decimalPlaces :=
      if magnitude >= 0 then Max(minDecimals, sigDigits - magnitude as real - 1.0)
      else sigDigits - magnitude as real - 1.0;
    Min(Max(decimalPlaces, 0.0), 15.0)
  }

  /** `roundSmart`: unroundable and whole values are returned as they are. */
  function RoundSmart(m: Libm, value: JsValue, options: SmartOptions): (r: JsValue)
    ensures IsUnroundable(value) ==> r == value
    ensures value.Num? && IsIntegral(value.r) ==> r == value
  {
    if IsUnroundable(value) then value
    else if IsIntegral(value.r) then value
    else
      var sigDigits := OrDefault(options.sigDigits, DEFAULT_SIG_DIGITS);
      var minDecimals := OrDefault(options.minDecimals, DEFAULT_MIN_DECIMALS);
      var magnitude := Magnitude(Abs(value.r));
      var decimalPlaces := SmartPlaces(magnitude, sigDigits, minDecimals);
      var factor := Exp10(m, decimalPlaces);
      RoundDecimals.RoundedQuotient(value.r, factor)
  }

  /**
   * With whole option values and d the clamped number of places for the
   * magnitude M of |v|: the result is a whole multiple of 10^-d within half
   * of 10^-d of v.
   */
  lemma RoundSmartSpec(m: Libm, v: real, options: SmartOptions, mag: int)
    requires v != 0.0 && !IsIntegral(v)
    requires Pow10(mag) <= Abs(v) < Pow10(mag + 1)
    requires IsIntegral(OrDefault(options.sigDigits, DEFAULT_SIG_DIGITS))
    requires IsIntegral(OrDefault(options.minDecimals, DEFAULT_MIN_DECIMALS))
    ensures var d := SmartPlaces(mag, OrDefault(options.sigDigits, DEFAULT_SIG_DIGITS),
                                 OrDefault(options.minDecimals, DEFAULT_MIN_DECIMALS));
      var r := RoundSmart(m, Num(v), options);
      IsIntegral(d) && 0 <= d.Floor <= 15 &&
      r == Num(ScaledRound(v, Pow10(d.Floor))) &&
      IsIntegral(Mul(r.r, Pow10(d.Floor))) &&
      Abs(r.r - v) <= 1.0 / (2.0 * Pow10(d.Floor))
  {
    MagnitudeUnique(Abs(v), mag);
    var sig := OrDefault(options.sigDigits, DEFAULT_SIG_DIGITS);
    var minD := OrDefault(options.minDecimals, DEFAULT_MIN_DECIMALS);
    var d := SmartPlaces(mag, sig, minD);
    SmartPlacesIntegral(mag, sig, minD);
    var f := Pow10(d.Floor);
    assert Exp10(m, d) == f;
    assert RoundSmart(m, Num(v), options) == RoundDecimals.RoundedQuotient(v, f);
    ScaledRoundProperties(v, f);
  }

  lemma SmartPlacesIntegral(mag: int, sig: real, minD: real)
    requires IsIntegral(sig) && IsIntegral(minD)
    ensures IsIntegral(SmartPlaces(mag, sig, minD))
  {
    var raw := sig - mag as real - 1.0;
    assert IsIntegral(raw) by {
      assert raw == (sig.Floor - mag - 1) as real;
    }
  }

  /** The defaults: no options means four significant digits and at least two places. */
  lemma RoundSmartDefaults(m: Libm, value: JsValue)
    ensures RoundSmart(m, value, SmartOptions(None, None)) ==
            RoundSmart(m, value, SmartOptions(Some(4.0), Some(2.0)))
  {
  }

  /** 1.33333 keeps all its digits with sigDigits 6 and becomes 1.33 with sigDigits 2. */
  lemma RoundSmartCustomDigits(m: Libm)
    ensures RoundSmart(m, Num(1.33333), SmartOptions(Some(6.0), None)) == Num(1.33333)
    ensures RoundSmart(m, Num(1.33333), SmartOptions(Some(2.0), None)) == Num(1.33)
  {
    assert Pow10(1) == 10.0;
    MagnitudeUnique(1.33333, 0);
    assert 1.33333 != 1.33333.Floor as real;
    assert Pow10(5) == 100000.0;
    assert Exp10(m, 5.0) == 100000.0;
    ScaledRoundOfMultiple(133333, 100000.0);
    assert 133333 as real / 100000.0 == 1.33333;
    assert Exp10(m, 2.0) == 100.0;
    assert Round(Mul(1.33333, 100.0)) == 133;
  }
}

module RoundAtomic {
  import opened JsMath
  import opened RoundGuards

  /** `Math.round` applied symmetrically: round(x) for x >= 0 and -round(-x) below. */
  function AtomicCount(atomicValue: real): (k: int)
    ensures Abs(k as real - atomicValue) <= 0.5
  {
    if atomicValue >= 0.0 then Round(atomicValue) else -Round(-atomicValue)
  }

  /** Negating the atomic value negates the count, and whole values are their own count. */
  lemma AtomicCountOdd(x: real)
    ensures AtomicCount(-x) == -AtomicCount(x)
    ensures IsIntegral(x) ==> AtomicCount(x) as real == x
  {
    if IsIntegral(x) {
      if x >= 0.0 {
        RoundIntegral(x.Floor);
      } else {
        assert -x == (-x.Floor) as real;
        RoundIntegral(-x.Floor);
      }
    }
  }

  /**
   * `roundAtomic`: the value is converted to the atomic unit, rounded to a
   * whole count there and converted back.  Unroundable values and invalid
   * factors leave the value as it is.
   */
  function RoundAtomic(value: JsValue, targetToBase: JsValue, atomicToBase: JsValue): (r: JsValue)
    ensures IsUnroundable(value) ==> r == value
    ensures !IsValidFactor(targetToBase) || !IsValidFactor(atomicToBase) ==> r == value
    ensures !IsUnroundable(value) ==> r.Num?
  {
    if IsUnroundable(value) then value
    else if !IsValidFactor(targetToBase) || !IsValidFactor(atomicToBase) then value
    else
      var atomicValue := Mul(value.r, targetToBase.r) / atomicToBase.r;
      var roundedAtomic := AtomicCount(atomicValue);
      Num(Mul(roundedAtomic as real, atomicToBase.r) / targetToBase.r)
  }

  /**
   * With valid factors t and a the result is k * (a / t) for the rounded
   * count k of v * t / a, negating v negates it, and a value whose count is
   * already whole comes back unchanged.
   */
  lemma RoundAtomicSpec(v: real, t: real, a: real)
    requires v != 0.0 && 0.0 < t && 0.0 < a
    ensures var k := AtomicCount(Mul(v, t) / a);
      RoundAtomic(Num(v), Num(t), Num(a)) == Num(k as real * (a / t))
    ensures RoundAtomic(Num(-v), Num(t), Num(a)).r == -RoundAtomic(Num(v), Num(t), Num(a)).r
    ensures IsIntegral(Mul(v, t) / a) ==> RoundAtomic(Num(v), Num(t), Num(a)) == Num(v)
  {
    RoundAtomicCount(v, t, a);
    RoundAtomicOdd(v, t, a);
    RoundAtomicWhole(v, t, a);
  }

  lemma RoundAtomicOdd(v: real, t: real, a: real)
    requires v != 0.0 && 0.0 < t && 0.0 < a
    ensures RoundAtomic(Num(-v), Num(t), Num(a)).r == -RoundAtomic(Num(v), Num(t), Num(a)).r
  {
    var x, y := Mul(v, t) / a, Mul(-v, t) / a;
    NegatedAtomicValue(v, t, a);
    CountOfNegation(x, y);
    NegatedScaled(AtomicCount(x), a, t);
  }

  lemma NegatedScaled(k: int, a: real, t: real)
    requires 0.0 < t
    ensures Mul((-k) as real, a) / t == -(Mul(k as real, a) / t)
  {
  }

  lemma CountOfNegation(x: real, y: real)
    requires y == -x
    ensures AtomicCount(y) == -AtomicCount(x)
  {
    AtomicCountOdd(x);
  }

  lemma RoundAtomicWhole(v: real, t: real, a: real)
    requires v != 0.0 && 0.0 < t && 0.0 < a
    ensures IsIntegral(Mul(v, t) / a) ==> RoundAtomic(Num(v), Num(t), Num(a)) == Num(v)
  {
    var x := Mul(v, t) / a;
    if IsIntegral(x) {
      AtomicCountOdd(x);
      AtomicRoundTrip(v, t, a);
    }
  }

  lemma RoundAtomicCount(v: real, t: real, a: real)
    requires v != 0.0 && 0.0 < t && 0.0 < a
    ensures RoundAtomic(Num(v), Num(t), Num(a)) == Num(AtomicCount(Mul(v, t) / a) as real * (a / t))
  {
    BackToTarget(AtomicCount(Mul(v, t) / a) as real, a, t);
  }

  lemma BackToTarget(q: real, a: real, t: real)
    requires 0.0 < t
    ensures Mul(q, a) / t == q * (a / t)
  {
  }

  lemma NegatedAtomicValue(v: real, t: real, a: real)
    requires 0.0 < a
    ensures Mul(-v, t) / a == -(Mul(v, t) / a)
  {
  }

  /** Converting v to the atomic unit and back gives v. */
  lemma AtomicRoundTrip(v: real, t: real, a: real)
    requires 0.0 < t && 0.0 < a
    ensures Mul(Mul(v, t) / a, a) / t == v
  {
    MulDivCancel(Mul(v, t), a);
    MulDivCancel(v, t);
  }

  /** 125.55123 cm, counted in whole millimetres, is 125.6 cm. */
  lemma RoundAtomicExample()
    ensures RoundAtomic(Num(125.55123), Num(10.0), Num(1.0)) == Num(125.6)
    ensures RoundAtomic(Num(100.0), Num(0.0), Num(1.0)) == Num(100.0)
  {
    assert Mul(125.55123, 10.0) / 1.0 == 1255.5123;
    assert AtomicCount(1255.5123) == 1256;
  }
}

module RoundChain {
  import opened Wrappers
  import opened JsMath
  import opened RoundGuards
  import RoundDecimals
  import RoundSignificant
  import RoundSmart
  import RoundAtomic

  /** `round(value)` first replaces a non-number by NaN. */
  function InternalValue(value: JsValue): (r: JsValue)
    ensures value.NotNumber? ==> r == NaN
    ensures !value.NotNumber? ==> r == value
  {
    if value.NotNumber? then NaN else value
  }

  function ToDecimals(m: Libm, value: JsValue, n: JsValue): JsValue
  {
    RoundDecimals.RoundToDecimals(m, InternalValue(value), n)
  }

  function ToSignificant(m: Libm, value: JsValue, n: JsValue): JsValue
  {
    RoundSignificant.RoundToSignificant(m, InternalValue(value), n)
  }

  function Smart(m: Libm, value: JsValue, options: RoundSmart.SmartOptions): JsValue
  {
    RoundSmart.RoundSmart(m, InternalValue(value), options)
  }

  function Atomic(value: JsValue, targetToBase: JsValue, atomicToBase: JsValue): JsValue
  {
    RoundAtomic.RoundAtomic(InternalValue(value), targetToBase, atomicToBase)
  }

  /** `toInteger`: unroundable values as they are, every other number to the nearest whole number. */
  function ToInteger(value: JsValue): (r: JsValue)
    ensures IsUnroundable(InternalValue(value)) ==> r == InternalValue(value)
    ensures value.Num? && value.r != 0.0 ==>
      r.Num? && IsIntegral(r.r) && value.r - 0.5 < r.r <= value.r + 0.5
  {
    var internal := InternalValue(value);
    if IsUnroundable(internal) then internal else Num(Round(internal.r) as real)
  }

  /**
   * The chain never rounds a non-number: each rule sees NaN instead and
   * returns it, and toInteger gives NaN too.
   */
  lemma ChainOnNonNumber(m: Libm, n: JsValue, options: RoundSmart.SmartOptions, t: JsValue, a: JsValue)
    ensures ToDecimals(m, NotNumber, n) == NaN
    ensures ToSignificant(m, NotNumber, n) == NaN
    ensures Smart(m, NotNumber, options) == NaN
    ensures Atomic(NotNumber, t, a) == NaN
    ensures ToInteger(NotNumber) == NaN
  {
  }

  /** 1.5 gives 2, -1.5 gives -1, -1.6 gives -2; whole numbers, 0 and infinity stay. */
  lemma ToIntegerExamples(k: int)
    ensures ToInteger(Num(1.5)) == Num(2.0)
    ensures ToInteger(Num(-1.5)) == Num(-1.0)
    ensures ToInteger(Num(-1.6)) == Num(-2.0)
    ensures ToInteger(Num(k as real)) == Num(k as real)
    ensures ToInteger(Num(0.0)) == Num(0.0) && ToInteger(Infinity) == Infinity
  {
    if k != 0 {
      RoundIntegral(k);
    }
  }
}
