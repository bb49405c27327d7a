// The units package: the unit tables, the unit-name recogniser
// `resolveUnit`, the two rounding rules applied after a conversion and the
// conversion chain `convert(value).from(source).to(target)`.

module UnitsTable {
  /** `UnitCategory`. */
  datatype Category =
    | Length
    | Area
    | Volume
    | MomentOfInertia
    | Mass
    | Force
    | ForcePerLength
    | ForcePerArea

  /** `UnitDefinition`: the category and the factor to the category's base unit. */
  datatype UnitDef = UnitDef(category: Category, toBase: real)

  /** Standard gravity in m/s^2, used between mass and force. */
  const GRAVITY: real := 9.81

  /** `UNITS`: every supported unit name and its definition. */
  const UNITS: map<string, UnitDef> := map[
    // length -> mm
    "mm" := UnitDef(Length, 1.0),
    "cm" := UnitDef(Length, 10.0),
    "dm" := UnitDef(Length, 100.0),
    "m" := UnitDef(Length, 1000.0),
    "km" := UnitDef(Length, 1000000.0),
    // area -> mm^2
    "mm^2" := UnitDef(Area, 1.0),
    "cm^2" := UnitDef(Area, 100.0),
    "dm^2" := UnitDef(Area, 10000.0),
    "m^2" := UnitDef(Area, 1000000.0),
    "km^2" := UnitDef(Area, 1000000000000.0),
    // volume -> mm^3
    "mm^3" := UnitDef(Volume, 1.0),
    "cm^3" := UnitDef(Volume, 1000.0),
    "m^3" := UnitDef(Volume, 1000000000.0),
    "ml" := UnitDef(Volume, 1000.0),
    "l" := UnitDef(Volume, 1000000.0),
    // moment of inertia -> mm^4
    "mm^4" := UnitDef(MomentOfInertia, 1.0),
    "cm^4" := UnitDef(MomentOfInertia, 10000.0),
    "dm^4" := UnitDef(MomentOfInertia, 100000000.0),
    "m^4" := UnitDef(MomentOfInertia, 1000000000000.0),
    // mass -> g
    "g" := UnitDef(Mass, 1.0),
    "kg" := UnitDef(Mass, 1000.0),
    "t" := UnitDef(Mass, 1000000.0),
    // force -> N
    "N" := UnitDef(Force, 1.0),
    "kN" := UnitDef(Force, 1000.0),
    "MN" := UnitDef(Force, 1000000.0),
    // force per length -> N/mm
    "N/m" := UnitDef(ForcePerLength, 0.001),
    "N/cm" := UnitDef(ForcePerLength, 0.1),
    "N/mm" := UnitDef(ForcePerLength, 1.0),
    "kN/m" := UnitDef(ForcePerLength, 1.0),
    "kN/cm" := UnitDef(ForcePerLength, 100.0),
    "kN/mm" := UnitDef(ForcePerLength, 1000.0),
    "MN/m" := UnitDef(ForcePerLength, 1000.0),
    "MN/cm" := UnitDef(ForcePerLength, 100000.0),
    "MN/mm" := UnitDef(ForcePerLength, 1000000.0),
    // force per area -> N/mm^2
    "N/m^2" := UnitDef(ForcePerArea, 0.000001),
    "N/cm^2" := UnitDef(ForcePerArea, 0.01),
    "N/mm^2" := UnitDef(ForcePerArea, 1.0),
    "kN/m^2" := UnitDef(ForcePerArea, 0.001),
    "kN/cm^2" := UnitDef(ForcePerArea, 10.0),
    "kN/mm^2" := UnitDef(ForcePerArea, 1000.0),
    "MN/m^2" := UnitDef(ForcePerArea, 1.0),
    "MN/cm^2" := UnitDef(ForcePerArea, 10000.0),
    "MN/mm^2" := UnitDef(ForcePerArea, 1000000.0)
  ]

  /** `ATOMIC_UNITS`: the smallest unit of a category, where it has one. */
  const ATOMIC_UNITS: map<Category, string> := map[
    Length := "mm",
    Area := "mm^2",
    Volume := "mm^3",
    MomentOfInertia := "mm^4",
    Mass := "g",
    Force := "N"
  ]

  /** Every unit has a strictly positive factor to its base unit. */
  lemma ToBasePositive(key: string)
    requires key in UNITS
    ensures UNITS[key].toBase > 0.0
  {
  }

  /**
   * Every atomic unit is a unit of its own category with factor 1, and the
   * two force ratios have none.
   */
  lemma AtomicUnitsWellFormed(c: Category)
    ensures c in ATOMIC_UNITS ==>
      ATOMIC_UNITS[c] in UNITS && UNITS[ATOMIC_UNITS[c]] == UnitDef(c, 1.0)
    ensures c in ATOMIC_UNITS <==> c != ForcePerLength && c != ForcePerArea
  {
    match c
    case Length => AtomicLength();
    case Area => AtomicKey("mm^2", Area);
    case Volume => AtomicKey("mm^3", Volume);
    case MomentOfInertia => AtomicKey("mm^4", MomentOfInertia);
    case Mass => AtomicKey("g", Mass);
    case Force => AtomicKey("N", Force);
    case ForcePerLength =>
    case ForcePerArea =>
  }

  /** The listed atomic units of the other categories are keys with factor 1. */
  lemma AtomicKey(k: string, c: Category)
    requires (k, c) in {("mm^2", Area), ("mm^3", Volume), ("mm^4", MomentOfInertia), ("g", Mass), ("N", Force)}
    ensures k in UNITS && UNITS[k] == UnitDef(c, 1.0)
  {
  }

  lemma AtomicLength()
    ensures "mm" in UNITS && UNITS["mm"] == UnitDef(Length, 1.0)
  {
    assert |"mm"| == 2;
  }

  lemma SquareMetreKey()
    ensures "m^2" in UNITS && UNITS["m^2"] == UnitDef(Area, 1000000.0)
  {
    assert |"m^2"| == 3;
  }

  lemma ConstructorNotKey()
    ensures "constructor" !in UNITS
  {
    assert |"constructor"| == 11;
  }

  /** Different names that share one factor. */
  lemma SharedFactors()
    ensures UNITS["kN/m"].toBase == UNITS["N/mm"].toBase == 1.0
    ensures UNITS["MN/m^2"].toBase == UNITS["N/mm^2"].toBase == 1.0
    ensures UNITS["ml"].toBase == UNITS["cm^3"].toBase == 1000.0
    ensures GRAVITY == 9.81
  {
    ForceRatioKeys();
    VolumeKeys();
  }

  lemma ForceRatioKeys()
    ensures "kN/m" in UNITS && UNITS["kN/m"].toBase == 1.0
    ensures "N/mm" in UNITS && UNITS["N/mm"].toBase == 1.0
    ensures "MN/m^2" in UNITS && UNITS["MN/m^2"].toBase == 1.0
    ensures "N/mm^2" in UNITS && UNITS["N/mm^2"].toBase == 1.0
  {
    assert |"kN/m"| == 4 && |"N/mm"| == 4 && |"MN/m^2"| == 6 && |"N/mm^2"| == 6;
  }

  lemma VolumeKeys()
    ensures "ml" in UNITS && UNITS["ml"].toBase == 1000.0
    ensures "cm^3" in UNITS && UNITS["cm^3"].toBase == 1000.0
  {
    assert |"ml"| == 2 && |"cm^3"| == 4;
  }
}

module UnitsErrors {
  import opened JsMath
  import opened UnitsTable

  /** The argument of `resolveUnit`: a string, or any other JavaScript value. */
  datatype UnitInput = Text(s: string) | NotText

  /** The three error classes of the package, with what their messages report. */
  datatype UnitsError =
    | InvalidValue(value: JsValue)
    | UnknownUnit(input: UnitInput)
    | IncompatibleUnits(from: string, to: string, fromCategory: Category, toCategory: Category)
}

module UnitsParse {
  import opened Wrappers
  import opened UnitsTable
  import opened UnitsErrors

  // ---------------------------------------------------------------------
  // `String.prototype.trim`

  /** The characters `trim` removes: JavaScript's WhiteSpace and LineTerminator. */
  predicate IsWhitespace(c: char)
  {
    c == '\t' || c == '\n' || c == '\U{B}' || c == '\U{C}' || c == '\r' || c == ' ' ||
    c == '\U{A0}' || c == '\U{1680}' || ('\U{2000}' <= c <= '\U{200A}') ||
    c == '\U{2028}' || c == '\U{2029}' || c == '\U{202F}' || c == '\U{205F}' ||
    c == '\U{3000}' || c == '\U{FEFF}'
  }

  predicate AllWhitespace(s: string)
  {
    forall i :: 0 <= i < |s| ==> IsWhitespace(s[i])
  }

  /** Neither end of s is whitespace. */
  predicate Tight(s: string)
  {
    s == [] || (!IsWhitespace(s[0]) && !IsWhitespace(s[|s| - 1]))
  }

  /** Drop the leading whitespace. */
  function TrimStart(s: string): (r: string)
    ensures |r| <= |s| && r == s[|s| - |r|..] && AllWhitespace(s[..|s| - |r|])
    ensures r == [] || !IsWhitespace(r[0])
  {
    if s != [] && IsWhitespace(s[0]) then
      var r := TrimStart(s[1..]);
      assert s[..|s| - |r|] == [s[0]] + s[1..][..|s| - 1 - |r|];
      r
    else s
  }

  /** Drop the trailing whitespace. */
  function TrimEnd(s: string): (r: string)
    ensures |r| <= |s| && r == s[..|r|] && AllWhitespace(s[|r|..])
    ensures r == [] || !IsWhitespace(r[|r| - 1])
  {
    if s != [] && IsWhitespace(s[|s| - 1]) then
      var r := TrimEnd(s[..|s| - 1]);
      assert s[|r|..] == s[..|s| - 1][|r|..] + [s[|s| - 1]];
      r
    else s
  }

  /** `trim`: the part of s between its leading and its trailing whitespace. */
  function Trim(s: string): (r: string)
    ensures Tight(r)
  {
    var r := TrimEnd(TrimStart(s));
    assert r != [] ==> r[0] == TrimStart(s)[0];
    r
  }

  lemma {:induction false} TrimStartPadded(p: string, u: string)
    requires AllWhitespace(p) && (u == [] || !IsWhitespace(u[0]))
    ensures TrimStart(p + u) == u
  {
    if p != [] {
      assert (p + u)[1..] == p[1..] + u;
      TrimStartPadded(p[1..], u);
    }
  }

  lemma {:induction false} TrimEndPadded(u: string, q: string)
    requires AllWhitespace(q) && (u == [] || !IsWhitespace(u[|u| - 1]))
    ensures TrimEnd(u + q) == u
  {
    if q != [] {
      assert (u + q)[..|u + q| - 1] == u + q[..|q| - 1];
      TrimEndPadded(u, q[..|q| - 1]);
    }
  }

  /** Whitespace on either side of a tight string is exactly what `trim` removes. */
  lemma TrimExact(p: string, t: string, q: string)
    requires AllWhitespace(p) && AllWhitespace(q) && Tight(t)
    ensures Trim(p + t + q) == t
  {
    if t == [] {
      assert p + t + q == (p + q) + [];
      assert AllWhitespace(p + q);
      TrimStartPadded(p + q, []);
    } else {
      assert p + t + q == p + (t + q);
      TrimStartPadded(p, t + q);
      TrimEndPadded(t, q);
    }
  }

  /** Leading and trailing whitespace never changes what `trim` keeps. */
  lemma TrimPadding(p: string, s: string, q: string)
    requires AllWhitespace(p) && AllWhitespace(q)
    ensures Trim(p + s + q) == Trim(s)
  {
    var lead, t, trail := TrimSplit(s);
    Regroup(p, lead, t, trail, q);
    WhitespaceConcat(p, lead);
    WhitespaceConcat(trail, q);
    TrimExact(p + lead, t, trail + q);
  }

  /** Every string is its trimmed part between two runs of whitespace. */
  lemma TrimSplit(s: string) returns (lead: string, t: string, trail: string)
    ensures s == lead + t + trail && t == Trim(s)
    ensures AllWhitespace(lead) && AllWhitespace(trail)
  {
    var a := TrimStart(s);
    lead := s[..|s| - |a|];
    TakeDrop(s, |s| - |a|);
    assert s == lead + a;
    t := TrimEnd(a);
    trail := a[|t|..];
    TakeDrop(a, |t|);
    assert a == t + trail;
    ConcatAssoc(lead, t, trail);
    assert t == Trim(s);
  }

  lemma ConcatAssoc(a: string, b: string, c: string)
    ensures a + b + c == a + (b + c)
  {
  }

  lemma TakeDrop(s: string, n: nat)
    requires n <= |s|
    ensures s == s[..n] + s[n..]
  {
  }

  lemma Regroup(p: string, a: string, b: string, c: string, q: string)
    ensures p + (a + b + c) + q == (p + a) + b + (c + q)
  {
  }

  lemma WhitespaceConcat(a: string, b: string)
    requires AllWhitespace(a) && AllWhitespace(b)
    ensures AllWhitespace(a + b)
  {
    assert forall i :: |a| <= i < |a + b| ==> (a + b)[i] == b[i - |a|];
  }

  // ---------------------------------------------------------------------
  // Superscript digits

  /** `UNICODE_MAP`, in its iteration order. */
  const UNICODE_MAP: seq<(char, string)> := [('\U{B2}', "^2"), ('\U{B3}', "^3"), ('\U{2074}', "^4")]

  /** The first index of c in s, or |s| when there is none. */
  function FirstIndexOf(s: string, c: char): (i: nat)
    ensures i <= |s| && (i < |s| ==> s[i] == c)
    ensures forall k :: 0 <= k < i ==> s[k] != c
  {
    if s == [] then 0
    else if s[0] == c then 0
    else 1 + FirstIndexOf(s[1..], c)
  }

  /** `replace` with a string pattern: only the first occurrence of c is replaced. */
  function ReplaceFirst(s: string, c: char, rep: string): (r: string)
    ensures c !in s ==> r == s
  {
    var i := FirstIndexOf(s, c);
    if i == |s| then s else s[..i] + rep + s[i + 1..]
  }

  /** Where c occurs, exactly its first occurrence is replaced by rep. */
  lemma ReplaceFirstSpec(s: string, c: char, rep: string)
    requires c in s
    ensures exists i ::
              0 <= i < |s| && s[i] == c && c !in s[..i] &&
              ReplaceFirst(s, c, rep) == s[..i] + rep + s[i + 1..]
  {
    var i := FirstIndexOf(s, c);
    assert c !in s[..i];
  }

  /** The string after the first k rewrites of UNICODE_MAP. */
  function Rewritten(s: string, k: nat): string
    requires k <= |UNICODE_MAP|
  {
    if k == 0 then s else ReplaceFirst(Rewritten(s, k - 1), UNICODE_MAP[k - 1].0, UNICODE_MAP[k - 1].1)
  }

  // ---------------------------------------------------------------------
  // `VALID_UNIT_PATTERN`, /^[a-zA-Z]+(\^[1-9][0-9]*)?(\/[a-zA-Z]+(\^[1-9][0-9]*)?)?$/

  predicate IsLetter(c: char)
  {
    'a' <= c <= 'z' || 'A' <= c <= 'Z'
  }

  predicate IsDigit(c: char)
  {
    '0' <= c <= '9'
  }

  predicate AllLetters(s: string)
  {
    forall i :: 0 <= i < |s| ==> IsLetter(s[i])
  }

  /** The length of the run of letters that starts s. */
  function LetterRun(s: string): (n: nat)
    ensures n <= |s| && AllLetters(s[..n]) && (n < |s| ==> !IsLetter(s[n]))
  {
    if s != [] && IsLetter(s[0]) then
      var n := LetterRun(s[1..]);
      assert s[..n + 1] == [s[0]] + s[1..][..n];
      n + 1
    else 0
  }

  /** `\^[1-9][0-9]*`. */
  predicate IsExponent(s: string)
  {
    |s| >= 2 && s[0] == '^' && '1' <= s[1] <= '9' && forall i :: 2 <= i < |s| ==> IsDigit(s[i])
  }

  /** One unit part, read greedily: its letters, then nothing or an exponent. */
  predicate IsPart(s: string)
  {
    var n := LetterRun(s);
    1 <= n && (n == |s| || IsExponent(s[n..]))
  }

  /** The recogniser: one part, or two parts around the first '/'. */
  predicate MatchesPattern(s: string)
  {
    var j := FirstIndexOf(s, '/');
    if j == |s| then IsPart(s) else IsPart(s[..j]) && IsPart(s[j + 1..])
  }

  /** The language of one part, stated without the greedy reading. */
  ghost predicate PartShape(s: string)
  {
    exists k :: 1 <= k <= |s| && AllLetters(s[..k]) && (k == |s| || IsExponent(s[k..]))
  }

  /** The language of the whole pattern. */
  ghost predicate PatternShape(s: string)
  {
    PartShape(s) || exists j :: 0 <= j < |s| && s[j] == '/' && PartShape(s[..j]) && PartShape(s[j + 1..])
  }

  /** A part is made of letters, '^' and digits only. */
  predicate PartChar(c: char)
  {
    IsLetter(c) || IsDigit(c) || c == '^'
  }

  lemma IsPartCorrect(s: string)
    ensures IsPart(s) <==> PartShape(s)
    ensures PartShape(s) ==> forall i :: 0 <= i < |s| ==> PartChar(s[i])
  {
    var n := LetterRun(s);
    if IsPart(s) {
      assert 1 <= n <= |s| && AllLetters(s[..n]) && (n == |s| || IsExponent(s[n..]));
    }
    if PartShape(s) {
      var k :| 1 <= k <= |s| && AllLetters(s[..k]) && (k == |s| || IsExponent(s[k..]));
      assert n == k by {
        assert forall i :: 0 <= i < k ==> s[..k][i] == s[i];
        assert forall i :: 0 <= i < n ==> s[..n][i] == s[i];
        assert k < |s| ==> s[k..][0] == s[k];
      }
      forall i | 0 <= i < |s|
        ensures PartChar(s[i])
      {
        if i < k {
          assert s[..k][i] == s[i];
        } else {
          assert s[k..][i - k] == s[i];
        }
      }
    }
  }

  /** The recogniser accepts exactly the language of the pattern. */
  lemma MatchesPatternCorrect(s: string)
    ensures MatchesPattern(s) <==> PatternShape(s)
  {
    var j := FirstIndexOf(s, '/');
    if j == |s| {
      IsPartCorrect(s);
    } else {
      IsPartCorrect(s[..j]);
      IsPartCorrect(s[j + 1..]);
      SlashBreaksPart(s, j);
      if PatternShape(s) {
        var j' :| 0 <= j' < |s| && s[j'] == '/' && PartShape(s[..j']) && PartShape(s[j' + 1..]);
        FirstSlashSplits(s, j, j');
      }
    }
  }

  /** A string holding a '/' is no single part. */
  lemma SlashBreaksPart(s: string, j: nat)
    requires j < |s| && s[j] == '/'
    ensures !PartShape(s)
  {
    IsPartCorrect(s);
    assert !PartChar(s[j]);
  }

  /** A '/' with a part before it is the first '/'. */
  lemma FirstSlashSplits(s: string, j: nat, j': nat)
    requires j == FirstIndexOf(s, '/') && j' < |s| && s[j'] == '/' && PartShape(s[..j'])
    ensures j == j'
  {
    IsPartCorrect(s[..j']);
    assert forall i :: 0 <= i < j' ==> s[..j'][i] == s[i];
  }

  /** Every character of an accepted string is a letter, a digit, '^' or '/'. */
  lemma PatternChars(s: string)
    requires MatchesPattern(s)
    ensures s != [] && Plain(s)
  {
    var j := FirstIndexOf(s, '/');
    if j == |s| {
      IsPartCorrect(s);
    } else {
      IsPartCorrect(s[..j]);
      IsPartCorrect(s[j + 1..]);
      forall i | 0 <= i < |s|
        ensures PartChar(s[i]) || s[i] == '/'
      {
        if i < j {
          assert s[..j][i] == s[i];
        } else if i > j {
          assert s[j + 1..][i - j - 1] == s[i];
        }
      }
    }
  }

  // ---------------------------------------------------------------------
  // `resolveUnit`

  /** What `resolveUnit` returns for an input, step by step. */
  function Resolve(input: UnitInput): (r: Result<string, UnitsError>)
    ensures r.Err? ==> r.error == UnknownUnit(input)
  {
    if input.NotText? then Err(UnknownUnit(input))
    else
      match Lookup(Trim(input.s))
      case Some(n) => Ok(n)
      case None => Err(UnknownUnit(input))
  }

  /** The name a non-empty trimmed string stands for, once rewritten and checked. */
  function Lookup(trimmed: string): (r: Option<string>)
    ensures r.Some? <==> |trimmed| != 0 && Accept(Rewritten(trimmed, |UNICODE_MAP|)).Some?
    ensures r.Some? ==> r.value == Rewritten(trimmed, |UNICODE_MAP|)
  {
    if |trimmed| == 0 then None else Accept(Rewritten(trimmed, |UNICODE_MAP|))
  }

  /** The last two checks: the rewritten name must match the pattern, then be a key. */
  function Accept(result: string): (r: Option<string>)
    ensures r.Some? <==> MatchesPattern(result) && result in UNITS
    ensures r.Some? ==> r.value == result
  {
    if !MatchesPattern(result) then None
    else if result !in UNITS then None
    else Some(result)
  }

  /** `resolveUnit`: trim, rewrite superscripts one entry at a time, check the pattern, look up. */
  method ResolveUnit(input: UnitInput) returns (r: Result<string, UnitsError>)
    ensures r == Resolve(input)
  {
    if input.NotText? {
      return Err(UnknownUnit(input));
    }
    var result := Trim(input.s);
    if |result| == 0 {
      return Err(UnknownUnit(input));
    }
    result := RewriteSuperscripts(result);
    assert result == Rewritten(Trim(input.s), |UNICODE_MAP|);
    var found := Accept(result);
    assert found == Lookup(Trim(input.s));
    if found.None? {
      return Err(UnknownUnit(input));
    }
    return Ok(found.value);
  }

  /** The loop of `resolveUnit` over UNICODE_MAP: each entry replaces its first occurrence. */
  method RewriteSuperscripts(s: string) returns (result: string)
    ensures result == Rewritten(s, |UNICODE_MAP|)
  {
    result := s;
    var i := 0;
    while i < |UNICODE_MAP|
      invariant 0 <= i <= |UNICODE_MAP|
      invariant result == Rewritten(s, i)
    {
      var (unicode, ascii) := UNICODE_MAP[i];
      result := ReplaceFirst(result, unicode, ascii);
      i := i + 1;
    }
  }

  /**
   * Stated with the pattern's language: a string resolves exactly when its
   * trimmed, rewritten form N is in the language and is a table key, and
   * then to N; anything else fails with UnknownUnit.
   */
  lemma ResolveText(s: string)
    ensures var n := Rewritten(Trim(s), |UNICODE_MAP|);
      Resolve(Text(s)) == if PatternShape(n) && n in UNITS then Ok(n) else Err(UnknownUnit(Text(s)))
  {
    var n := Rewritten(Trim(s), |UNICODE_MAP|);
    MatchesPatternCorrect(n);
    if Trim(s) == [] {
      assert Rewritten([], 1) == [] && Rewritten([], 2) == [];
      assert n == [];
      if PatternShape(n) {
        PatternChars(n);
      }
    }
  }

  /** What resolves is a known unit name the recogniser accepts. */
  lemma ResolveFound(input: UnitInput)
    requires Resolve(input).Ok?
    ensures Resolve(input).value in UNITS && MatchesPattern(Resolve(input).value)
    ensures input.Text? && Resolve(input).value == Rewritten(Trim(input.s), |UNICODE_MAP|)
  {
  }

  /** Non-strings, empty and whitespace-only strings fail. */
  lemma ResolveRejectsBlank(s: string)
    requires AllWhitespace(s)
    ensures Resolve(NotText) == Err(UnknownUnit(NotText))
    ensures Resolve(Text(s)) == Err(UnknownUnit(Text(s)))
  {
    assert s == s + [] + [];
    TrimExact(s, [], []);
  }

  /** Leading and trailing whitespace is ignored. */
  lemma ResolveIgnoresPadding(p: string, s: string, q: string)
    requires AllWhitespace(p) && AllWhitespace(q)
    ensures Resolve(Text(p + s + q)) ==
      if Resolve(Text(s)).Ok? then Resolve(Text(s)) else Err(UnknownUnit(Text(p + s + q)))
  {
    TrimPadding(p, s, q);
    ResolveSameTrim(p + s + q, s);
  }

  /** Two strings with the same trimmed part resolve alike. */
  lemma ResolveSameTrim(a: string, b: string)
    requires Trim(a) == Trim(b)
    ensures Resolve(Text(a)) == if Resolve(Text(b)).Ok? then Resolve(Text(b)) else Err(UnknownUnit(Text(a)))
  {
  }

  /** A string with none of the superscripts is not rewritten. */
  lemma RewrittenPlain(s: string)
    requires Plain(s)
    ensures Rewritten(s, |UNICODE_MAP|) == s
  {
    RewrittenFixed(s, |UNICODE_MAP|);
  }

  /** Only letters, digits, '^' and '/'. */
  predicate Plain(s: string)
  {
    forall i :: 0 <= i < |s| ==> PartChar(s[i]) || s[i] == '/'
  }

  lemma PlainTight(s: string)
    requires Plain(s)
    ensures Tight(s)
  {
    if s != [] {
      PlainNotWhitespace(s[0]);
      PlainNotWhitespace(s[|s| - 1]);
    }
  }

  lemma PlainNotWhitespace(c: char)
    requires PartChar(c) || c == '/'
    ensures !IsWhitespace(c)
  {
  }

  /** The rewrites leave a plain string alone. */
  lemma {:induction false} RewrittenFixed(s: string, k: nat)
    requires k <= |UNICODE_MAP| && Plain(s)
    ensures Rewritten(s, k) == s
  {
    if k > 0 {
      RewrittenFixed(s, k - 1);
      var c := UNICODE_MAP[k - 1].0;
      assert !PartChar(c) && c != '/' by {
        assert k - 1 == 0 || k - 1 == 1 || k - 1 == 2;
      }
      assert c !in s;
    }
  }

  /** A resolved name resolves to itself. */
  lemma ResolveIdempotent(input: UnitInput)
    requires Resolve(input).Ok?
    ensures Resolve(Text(Resolve(input).value)) == Resolve(input)
  {
    var k := Resolve(input).value;
    ResolveFound(input);
    PatternChars(k);
    PlainExample(k);
    ResolveAccepts(k, k);
  }

  /** A string resolves once its rewritten, trimmed form is accepted and known. */
  lemma ResolveAccepts(s: string, n: string)
    requires n == Rewritten(Trim(s), |UNICODE_MAP|) && MatchesPattern(n) && n in UNITS
    ensures Resolve(Text(s)) == Ok(n)
  {
    PatternChars(n);
    assert Trim(s) != [] by {
      assert Rewritten([], |UNICODE_MAP|) == [] by {
        RewrittenFixed([], |UNICODE_MAP|);
      }
    }
  }

  /** A string whose rewritten, trimmed form breaks the pattern does not resolve. */
  lemma ResolveRejectsMalformed(s: string)
    requires !MatchesPattern(Rewritten(Trim(s), |UNICODE_MAP|))
    ensures Resolve(Text(s)) == Err(UnknownUnit(Text(s)))
  {
  }

  /** FirstIndexOf is the first index that holds c. */
  lemma FirstIndexAt(s: string, c: char, i: nat)
    requires i <= |s| && (i < |s| ==> s[i] == c) && c !in s[..i]
    ensures FirstIndexOf(s, c) == i
  {
    assert forall k :: 0 <= k < i ==> s[..i][k] == s[k];
  }

  /** LetterRun is the length of the leading letters. */
  lemma LetterRunIs(s: string, n: nat)
    requires n <= |s| && AllLetters(s[..n]) && (n < |s| ==> !IsLetter(s[n]))
    ensures LetterRun(s) == n
  {
    var k := LetterRun(s);
    assert forall i :: 0 <= i < n ==> s[..n][i] == s[i];
    assert forall i :: 0 <= i < k ==> s[..k][i] == s[i];
  }

  /** 'm²' is trimmed and rewritten to 'm^2'. */
  lemma SuperscriptRewrite()
    ensures Rewritten(Trim("m\U{B2}"), |UNICODE_MAP|) == "m^2"
  {
    var s := "m\U{B2}";
    SquareTrimmed();
    SquareRewrittenOnce();
    var n := "m^2";
    assert '\U{B3}' !in n && '\U{2074}' !in n;
    assert Rewritten(s, 2) == n;
  }

  /** 'm²' has no surrounding whitespace. */
  lemma SquareTrimmed()
    ensures Trim("m\U{B2}") == "m\U{B2}"
  {
    var s := "m\U{B2}";
    assert Tight(s);
    assert s == [] + s + [];
    TrimExact([], s, []);
  }

  /** The first rewrite turns 'm²' into 'm^2'. */
  lemma SquareRewrittenOnce()
    ensures Rewritten("m\U{B2}", 1) == "m^2"
  {
    var s := "m\U{B2}";
    FirstIndexAt(s, '\U{B2}', 1);
    assert s[..1] + "^2" + s[2..] == "m^2";
  }

  /** 'm^2' is a plain string the recogniser accepts. */
  lemma SquareMetreAccepted()
    ensures Plain("m^2") && MatchesPattern("m^2")
  {
    var n := "m^2";
    FirstIndexAt(n, '/', 3);
    LetterRunIs(n, 1);
    assert IsExponent(n[1..]);
  }

  /** 'm²' resolves to 'm^2'. */
  lemma ResolveSuperscriptExample()
    ensures Resolve(Text("m\U{B2}")) == Ok("m^2")
  {
    SuperscriptRewrite();
    SquareMetreAccepted();
    SquareMetreKey();
    ResolveAccepts("m\U{B2}", "m^2");
  }

  /** 'm^0' breaks the pattern: an exponent starts with 1 to 9. */
  lemma ResolveRejectsZeroExponent()
    ensures Resolve(Text("m^0")) == Err(UnknownUnit(Text("m^0")))
  {
    ZeroExponentMalformed();
    ResolveRejectsMalformed("m^0");
  }

  lemma ZeroExponentMalformed()
    ensures !MatchesPattern(Rewritten(Trim("m^0"), |UNICODE_MAP|))
  {
    PlainExample("m^0");
    ZeroExponentShape();
  }

  lemma ZeroExponentShape()
    ensures !MatchesPattern("m^0")
  {
    var a := "m^0";
    FirstIndexAt(a, '/', 3);
    LetterRunIs(a, 1);
    assert !IsExponent(a[1..]);
  }

  /**
   * The names a plain JavaScript object inherits from `Object.prototype`
   * that the pattern accepts: the `in` operator finds them in UNITS too.
   */
  const PROTOTYPE_KEYS: set<string> :=
    {"constructor", "hasOwnProperty", "isPrototypeOf", "propertyIsEnumerable",
     "toLocaleString", "toString", "valueOf"}

  /** `resolveUnit` as written, where the final `in` check also accepts the inherited names. */
  function ResolveAsWritten(input: UnitInput): (r: Result<string, UnitsError>)
    ensures r.Err? ==> r.error == UnknownUnit(input)
  {
    if input.NotText? then Err(UnknownUnit(input))
    else
      var trimmed := Trim(input.s);
      if |trimmed| == 0 then Err(UnknownUnit(input))
      else
        var result := Rewritten(trimmed, |UNICODE_MAP|);
        if !MatchesPattern(result) then Err(UnknownUnit(input))
        else if result !in UNITS && result !in PROTOTYPE_KEYS then Err(UnknownUnit(input))
        else Ok(result)
  }

  /** The two differ exactly on the inherited names, which only the code as written returns. */
  lemma ResolveAsWrittenDiffers(input: UnitInput)
    ensures Resolve(input).Ok? ==> ResolveAsWritten(input) == Resolve(input)
    ensures ResolveAsWritten(input) != Resolve(input) ==>
      Resolve(input).Err? && ResolveAsWritten(input).Ok? && ResolveAsWritten(input).value in PROTOTYPE_KEYS
  {
  }

  /** 'constructor' is no unit, yet the code as written resolves it. */
  lemma ResolveAsWrittenAcceptsConstructor()
    ensures ResolveAsWritten(Text("constructor")) == Ok("constructor")
    ensures Resolve(Text("constructor")) == Err(UnknownUnit(Text("constructor")))
  {
    var c := "constructor";
    ConstructorAccepted();
    PlainExample(c);
    ConstructorNotKey();
    AsWrittenAcceptsInherited(c, c);
    ResolveRejectsUnknown(c, c);
  }

  /** The code as written returns an inherited name once it is rewritten and matches. */
  lemma AsWrittenAcceptsInherited(s: string, n: string)
    requires n == Rewritten(Trim(s), |UNICODE_MAP|) && MatchesPattern(n) && n in PROTOTYPE_KEYS
    ensures ResolveAsWritten(Text(s)) == Ok(n)
  {
    PatternChars(n);
    assert Trim(s) != [] by {
      assert Rewritten([], |UNICODE_MAP|) == [] by {
        RewrittenFixed([], |UNICODE_MAP|);
      }
    }
  }

  /** A rewritten name that is no key does not resolve. */
  lemma ResolveRejectsUnknown(s: string, n: string)
    requires n == Rewritten(Trim(s), |UNICODE_MAP|) && n !in UNITS
    ensures Resolve(Text(s)) == Err(UnknownUnit(Text(s)))
  {
  }

  lemma ConstructorAccepted()
    ensures Plain("constructor") && MatchesPattern("constructor")
  {
    LettersAccepted("constructor");
  }

  /** A name made of letters only is plain and matches the pattern. */
  lemma LettersAccepted(s: string)
    requires s != [] && AllLetters(s)
    ensures Plain(s) && MatchesPattern(s)
  {
    assert s[..|s|] == s;
    FirstIndexAt(s, '/', |s|);
    LetterRunIs(s, |s|);
  }

  /** A plain tight string is its own trimmed, rewritten form. */
  lemma PlainExample(s: string)
    requires Plain(s) && s != []
    ensures Rewritten(Trim(s), |UNICODE_MAP|) == s
  {
    PlainTight(s);
    assert s == [] + s + [];
    TrimExact([], s, []);
    RewrittenPlain(s);
  }
}

module UnitsRound {
  import opened Wrappers
  import opened JsMath
  import RoundAtomic
  import RoundSmart

  const SIG_DIGITS: int := 4
  const MIN_DECIMAL_PLACES: int := 2

  /**
   * The decimal places kept for a value of magnitude m: enough for four
   * significant digits, and never fewer than two.
   */
  function DecimalPlaces(magnitude: int): (d: int)
    ensures MIN_DECIMAL_PLACES <= d && SIG_DIGITS - magnitude - 1 <= d
    ensures magnitude >= SIG_DIGITS - MIN_DECIMAL_PLACES - 1 ==> d == MIN_DECIMAL_PLACES
    ensures magnitude <= SIG_DIGITS - MIN_DECIMAL_PLACES - 1 ==> d == SIG_DIGITS - magnitude - 1
  {
    if magnitude >= 0 then MaxInt(MIN_DECIMAL_PLACES, SIG_DIGITS - magnitude - 1)
    else SIG_DIGITS - magnitude - 1
  }

  /** `smartRound`: zero and whole values come back as they are. */
  function SmartRound(value: real): (r: real)
    ensures value == 0.0 ==> r == 0.0
    ensures IsIntegral(value) ==> r == value
  {
    if value == 0.0 then 0.0
    else if IsIntegral(value) then value
    else
      var magnitude := Magnitude(Abs(value));
      var factor := Pow10(DecimalPlaces(magnitude));
      Round(Mul(value, factor)) as real / factor
  }

  /**
   * For a fractional v of magnitude M: the result is a whole multiple of
   * 10^-d, d = DecimalPlaces(M), within half of 10^-d of v.
   */
  lemma SmartRoundSpec(v: real, mag: int)
    requires !IsIntegral(v)
    requires Pow10(mag) <= Abs(v) < Pow10(mag + 1)
    ensures var f := Pow10(DecimalPlaces(mag));
      SmartRound(v) == ScaledRound(v, f) &&
      IsIntegral(Mul(SmartRound(v), f)) &&
      Abs(SmartRound(v) - v) <= 1.0 / (2.0 * f)
  {
    assert v != 0.0;
    MagnitudeUnique(Abs(v), mag);
    ScaledRoundProperties(v, Pow10(DecimalPlaces(mag)));
  }

  lemma {:induction false} Pow10Add(a: int, b: int)
    ensures Pow10(a + b) == Mul(Pow10(a), Pow10(b))
    decreases if b >= 0 then b else -b
  {
    if b > 0 {
      Pow10Add(a, b - 1);
      Pow10Succ(a + b - 1);
      Pow10Succ(b - 1);
      MulScale(Pow10(a), Pow10(b - 1), 10.0);
    } else if b < 0 {
      Pow10Add(a, b + 1);
      Pow10Succ(a + b);
      Pow10Succ(b);
      MulScale(Pow10(a), Pow10(b), 10.0);
    }
  }

  lemma MulScale(p: real, q: real, c: real)
    ensures c * Mul(p, q) == Mul(p, c * q)
  {
  }

  /** Four significant digits: the rounding error is at most 1/2000 of |v|. */
  lemma SmartRoundRelativeError(v: real)
    ensures Abs(SmartRound(v) - v) <= Abs(v) / 2000.0
  {
    if v != 0.0 && !IsIntegral(v) {
      var mag := Magnitude(Abs(v));
      var d := DecimalPlaces(mag);
      SmartRoundSpec(v, mag);
      Pow10Monotone(SIG_DIGITS - mag - 1, d);
      Pow10Add(SIG_DIGITS - mag - 1, mag);
      assert Pow10(3) == 1000.0;
      HalfStepBound(Pow10(d), Pow10(SIG_DIGITS - mag - 1), Pow10(mag), Abs(v));
    }
  }

  lemma HalfStepBound(f: real, g: real, p: real, a: real)
    requires 0.0 < g <= f && 0.0 < p <= a && Mul(g, p) == 1000.0
    ensures 1.0 / (2.0 * f) <= a / 2000.0
  {
    assert 1.0 / (2.0 * f) <= 1.0 / (2.0 * g);
    assert 1.0 / (2.0 * g) == p / 2000.0;
  }

  /**
   * Down to 10^-12 this is the rounding library's `roundSmart` with its
   * defaults (four significant digits, two places); below that the library
   * caps the places at 15 and this function does not.
   */
  lemma SmartRoundMatchesLibrary(m: Libm, v: real)
    requires Pow10(-12) <= Abs(v)
    ensures RoundSmart.RoundSmart(m, Num(v), RoundSmart.SmartOptions(None, None)) == Num(SmartRound(v))
  {
    if !IsIntegral(v) {
      var mag := Magnitude(Abs(v));
      if mag < -12 {
        Pow10Monotone(mag + 1, -12);
      }
      var d := DecimalPlaces(mag);
      assert 0 <= d <= 15;
      assert RoundSmart.SmartPlaces(mag, 4.0, 2.0) == d as real;
      assert Exp10(m, d as real) == Pow10(d);
    }
  }

  /** 1.234e-13 keeps four digits here, where the library's cap leaves three. */
  lemma SmartRoundBelowLibraryCap(m: Libm)
    ensures SmartRound(0.0000000000001234) == 0.0000000000001234
    ensures RoundSmart.RoundSmart(m, Num(0.0000000000001234), RoundSmart.SmartOptions(None, None))
         == Num(0.000000000000123)
  {
    var v := 0.0000000000001234;
    assert Pow10(-12) == 0.000000000001 && Pow10(-13) == 0.0000000000001;
    MagnitudeUnique(v, -13);
    assert !IsIntegral(v);
    assert DecimalPlaces(-13) == 16;
    assert Pow10(16) == 10000000000000000.0;
    assert Round(Mul(v, Pow10(16))) == 1234;
    assert RoundSmart.SmartPlaces(-13, 4.0, 2.0) == 15.0;
    assert Exp10(m, 15.0) == Pow10(15) == 1000000000000000.0;
    assert Round(Mul(v, Pow10(15))) == 123;
  }

  /** `Math.sign`. */
  function Sign(x: real): (s: int)
    ensures s as real * Abs(x) == x
  {
    if x > 0.0 then 1 else if x < 0.0 then -1 else 0
  }

  /** The whole count in the atomic unit: `Math.sign(x) * Math.round(Math.abs(x))`. */
  function SignedCount(x: real): int
  {
    Sign(x) * Round(Abs(x))
  }

  /** The signed count is the rounding library's atomic count. */
  lemma SignedCountIsAtomicCount(x: real)
    ensures SignedCount(x) == RoundAtomic.AtomicCount(x)
  {
    if x == 0.0 {
      assert Round(0.0) == 0;
    }
  }

  /** `atomicRound`: convert to the atomic unit, round to a whole count, convert back. */
  function AtomicRound(value: real, targetToBase: real, atomicToBase: real): (r: real)
    requires targetToBase != 0.0 && atomicToBase != 0.0
    ensures value == 0.0 ==> r == 0.0
  {
    if value == 0.0 then 0.0
    else
      var atomicValue := Mul(value, targetToBase) / atomicToBase;
      var roundedAtomic := SignedCount(atomicValue);
      Mul(roundedAtomic as real, atomicToBase) / targetToBase
  }

  /** With positive factors this is the rounding library's `roundAtomic`. */
  lemma AtomicRoundMatchesLibrary(v: real, t: real, a: real)
    requires 0.0 < t && 0.0 < a
    ensures RoundAtomic.RoundAtomic(Num(v), Num(t), Num(a)) == Num(AtomicRound(v, t, a))
  {
    SignedCountIsAtomicCount(Mul(v, t) / a);
  }

  /**
   * With positive factors: the result is a whole number k of atomic units
   * a / t, at most half an atomic unit away from v, negating v negates it,
   * and a value already a whole count comes back unchanged.
   */
  lemma AtomicRoundSpec(v: real, t: real, a: real)
    requires 0.0 < t && 0.0 < a
    ensures var k := SignedCount(Mul(v, t) / a);
      AtomicRound(v, t, a) == k as real * (a / t)
    ensures Abs(AtomicRound(v, t, a) - v) <= 0.5 * (a / t)
    ensures AtomicRound(-v, t, a) == -AtomicRound(v, t, a)
    ensures IsIntegral(Mul(v, t) / a) ==> AtomicRound(v, t, a) == v
  {
    if v != 0.0 {
      AtomicRoundCount(v, t, a);
      AtomicRoundError(v, t, a);
      AtomicRoundLibrarySpec(v, t, a);
    } else {
      assert Mul(v, t) / a == 0.0;
      assert SignedCount(0.0) == 0;
    }
  }

  /** The library's properties, carried over through AtomicRoundMatchesLibrary. */
  lemma AtomicRoundLibrarySpec(v: real, t: real, a: real)
    requires v != 0.0 && 0.0 < t && 0.0 < a
    ensures AtomicRound(-v, t, a) == -AtomicRound(v, t, a)
    ensures IsIntegral(Mul(v, t) / a) ==> AtomicRound(v, t, a) == v
  {
    AtomicRoundMatchesLibrary(v, t, a);
    AtomicRoundMatchesLibrary(-v, t, a);
    RoundAtomic.RoundAtomicSpec(v, t, a);
  }

  lemma AtomicRoundCount(v: real, t: real, a: real)
    requires v != 0.0 && 0.0 < t && 0.0 < a
    ensures AtomicRound(v, t, a) == SignedCount(Mul(v, t) / a) as real * (a / t)
  {
    DivAssoc(SignedCount(Mul(v, t) / a) as real, a, t);
  }

  lemma AtomicRoundError(v: real, t: real, a: real)
    requires 0.0 < t && 0.0 < a
    ensures var k := SignedCount(Mul(v, t) / a);
      Abs(k as real * (a / t) - v) <= 0.5 * (a / t)
  {
    var x := Mul(v, t) / a;
    CountWithinHalf(x);
    ScaledBack(v, t, a);
    HalfUnitBound(SignedCount(x) as real, x, a / t, v);
  }

  lemma CountWithinHalf(x: real)
    ensures Abs(SignedCount(x) as real - x) <= 0.5
  {
    SignedCountIsAtomicCount(x);
  }

  /** Counting in atomic units and scaling back by a / t returns the value. */
  lemma ScaledBack(v: real, t: real, a: real)
    requires 0.0 < t && 0.0 < a
    ensures (Mul(v, t) / a) * (a / t) == v
  {
    RoundAtomic.AtomicRoundTrip(v, t, a);
    DivAssoc(Mul(v, t) / a, a, t);
  }

  lemma DivAssoc(x: real, a: real, t: real)
    requires t != 0.0
    ensures x * (a / t) == Mul(x, a) / t
  {
  }

  lemma HalfUnitBound(k: real, x: real, u: real, v: real)
    requires 0.0 < u && Abs(k - x) <= 0.5 && x * u == v
    ensures Abs(k * u - v) <= 0.5 * u
  {
    var e := k - x;
    assert k * u - x * u == Mul(e, u);
    MulNonNeg(0.5 - Abs(e), u);
    MulAddLeft(0.5, -Abs(e), u);
    assert Abs(Mul(e, u)) == Mul(Abs(e), u) by {
      if e < 0.0 {
        assert Mul(e, u) == -Mul(-e, u);
      }
    }
  }

  /** 125.55123 cm counted in whole millimetres is 125.6 cm; -125.55123 cm is -125.6 cm. */
  lemma AtomicRoundExample()
    ensures AtomicRound(125.55123, 10.0, 1.0) == 125.6
    ensures AtomicRound(-125.55123, 10.0, 1.0) == -125.6
  {
    assert Mul(125.55123, 10.0) / 1.0 == 1255.5123;
    assert Round(1255.5123) == 1256;
    assert Mul(-125.55123, 10.0) / 1.0 == -1255.5123;
  }
}

module UnitsConvert {
  import opened Wrappers
  import opened JsMath
  import opened UnitsTable
  import opened UnitsErrors
  import opened UnitsParse
  import opened UnitsRound

  /** `isCompatible`: the same category, or mass and force either way round. */
  predicate IsCompatible(sourceCat: Category, targetCat: Category)
  {
    sourceCat == targetCat ||
    (sourceCat == Mass && targetCat == Force) ||
    (sourceCat == Force && targetCat == Mass)
  }

  /** Compatibility is reflexive and symmetric, and mass/force is the only pair across categories. */
  lemma CompatibilityLaws(a: Category, b: Category)
    ensures IsCompatible(a, a)
    ensures IsCompatible(a, b) == IsCompatible(b, a)
    ensures IsCompatible(a, b) && a != b <==> {a, b} == {Mass, Force}
  {
    if {a, b} == {Mass, Force} {
      assert a in {Mass, Force} && b in {Mass, Force};
    }
  }

  /**
   * `roundResult`: a category with an atomic unit rounds to whole atomic
   * units (factor 1), the two force ratios get `smartRound`.
   */
  function RoundResult(result: real, targetKey: string, category: Category): (r: real)
    requires targetKey in UNITS
    ensures category in ATOMIC_UNITS ==> r == AtomicRound(result, UNITS[targetKey].toBase, 1.0)
    ensures category !in ATOMIC_UNITS ==> r == SmartRound(result)
  {
    if category in ATOMIC_UNITS then
      var atomicKey := ATOMIC_UNITS[category];
      AtomicUnitsWellFormed(category);
      ToBasePositive(targetKey);
      var targetDef := UNITS[targetKey];
      var atomicDef := UNITS[atomicKey];
      AtomicRound(result, targetDef.toBase, atomicDef.toBase)
    else
      SmartRound(result)
  }

  /** The object `convert(value)` returns: the value waiting for its source unit. */
  datatype ConvertChain = ConvertChain(value: real)

  /** The object `from(source)` returns: the value and its resolved source unit. */
  datatype FromChain = FromChain(value: real, sourceKey: string)

  /** `convert`: only a finite number starts a chain. */
  function Convert(value: JsValue): (r: Result<ConvertChain, UnitsError>)
    ensures r.Ok? <==> value.Num?
    ensures r.Ok? ==> r.value.value == value.r
    ensures r.Err? ==> r.error == InvalidValue(value)
  {
    if !value.Num? then Err(InvalidValue(value)) else Ok(ConvertChain(value.r))
  }

  /** `from`: resolve the source unit. */
  function From(chain: ConvertChain, source: UnitInput): (r: Result<FromChain, UnitsError>)
    ensures r.Ok? ==> r.value.sourceKey in UNITS && r.value.value == chain.value
  {
    match Resolve(source)
    case Err(e) => Err(e)
    case Ok(sourceKey) =>
      ResolveFound(source);
      Ok(FromChain(chain.value, sourceKey))
  }

  /** `to`: resolve the target unit, then convert between the two known units. */
  function To(chain: FromChain, target: UnitInput): (r: Result<real, UnitsError>)
    requires chain.sourceKey in UNITS
  {
    match Resolve(target)
    case Err(e) => Err(e)
    case Ok(targetKey) =>
      ResolveFound(target);
      ConvertKnown(chain.value, chain.sourceKey, targetKey)
  }

  /** The body of `to` once both units are known: check compatibility, convert, round. */
  function ConvertKnown(value: real, sourceKey: string, targetKey: string): (r: Result<real, UnitsError>)
    requires sourceKey in UNITS && targetKey in UNITS
  {
    var sourceDef := UNITS[sourceKey];
    var targetDef := UNITS[targetKey];
    ToBasePositive(targetKey);
    if !IsCompatible(sourceDef.category, targetDef.category) then
      Err(IncompatibleUnits(sourceKey, targetKey, sourceDef.category, targetDef.category))
    else if sourceDef.category == Mass && targetDef.category == Force then
      var grams := Mul(value, sourceDef.toBase);
      var newtons := Mul(grams, GRAVITY) / 1000.0;
      var result := newtons / targetDef.toBase;
      Ok(SmartRound(result))
    else if sourceDef.category == Force && targetDef.category == Mass then
      var newtons := Mul(value, sourceDef.toBase);
      var grams := Mul(newtons, 1000.0) / GRAVITY;
      var roundedGrams := Round(grams);
      var result := roundedGrams as real / targetDef.toBase;
      Ok(result)
    else
      var baseValue := Mul(value, sourceDef.toBase);
      var result := baseValue / targetDef.toBase;
      Ok(RoundResult(result, targetKey, targetDef.category))
  }

  /** `convert(value).from(source).to(target)`, the first error winning. */
  function ConvertUnits(value: JsValue, source: UnitInput, target: UnitInput): Result<real, UnitsError>
  {
    match Convert(value)
    case Err(e) => Err(e)
    case Ok(c) =>
      match From(c, source)
      case Err(e) => Err(e)
      case Ok(f) => To(f, target)
  }

  /** A value that is not a finite number is reported before either unit is looked at. */
  lemma InvalidValueFirst(value: JsValue, source: UnitInput, target: UnitInput)
    requires !value.Num?
    ensures ConvertUnits(value, source, target) == Err(InvalidValue(value))
  {
  }

  /** Then the source unit, then the target unit, each reported as given. */
  lemma UnknownUnitsNext(v: real, source: UnitInput, target: UnitInput)
    ensures Resolve(source).Err? ==> ConvertUnits(Num(v), source, target) == Err(UnknownUnit(source))
    ensures Resolve(source).Ok? && Resolve(target).Err? ==>
      ConvertUnits(Num(v), source, target) == Err(UnknownUnit(target))
  {
  }

  /** Once both units are known, the chain is ConvertKnown on their names. */
  lemma KnownUnits(v: real, source: UnitInput, target: UnitInput, s: string, t: string)
    requires Resolve(source) == Ok(s) && Resolve(target) == Ok(t)
    ensures s in UNITS && t in UNITS
    ensures ConvertUnits(Num(v), source, target) == ConvertKnown(v, s, t)
  {
    ResolveFound(source);
    ResolveFound(target);
  }

  /**
   * Units of incompatible categories are reported with both names and both
   * categories; compatible ones always give a number.
   */
  lemma IncompatibleReported(v: real, s: string, t: string)
    requires s in UNITS && t in UNITS
    ensures ConvertKnown(v, s, t).Err? <==> !IsCompatible(UNITS[s].category, UNITS[t].category)
    ensures ConvertKnown(v, s, t).Err? ==>
      ConvertKnown(v, s, t) == Err(IncompatibleUnits(s, t, UNITS[s].category, UNITS[t].category))
  {
  }

  /** Within one category: through the base unit, then `roundResult` in the target unit. */
  lemma SameCategory(v: real, s: string, t: string)
    requires s in UNITS && t in UNITS && UNITS[s].category == UNITS[t].category
    ensures UNITS[t].toBase > 0.0 &&
      ConvertKnown(v, s, t) == Ok(RoundResult(Mul(v, UNITS[s].toBase) / UNITS[t].toBase, t, UNITS[t].category))
  {
    ToBasePositive(t);
  }

  /** Converting to the same unit only rounds. */
  lemma SameUnit(v: real, s: string)
    requires s in UNITS
    ensures ConvertKnown(v, s, s) == Ok(RoundResult(v, s, UNITS[s].category))
  {
    SameCategory(v, s, s);
    ToBasePositive(s);
    MulDivCancel(v, UNITS[s].toBase);
  }

  /** Mass to force: grams times 9.81 / 1000 give newtons, then `smartRound`. */
  lemma MassToForce(v: real, s: string, t: string)
    requires s in UNITS && t in UNITS && UNITS[s].category == Mass && UNITS[t].category == Force
    ensures UNITS[t].toBase > 0.0 &&
      ConvertKnown(v, s, t) == Ok(SmartRound(Mul(Mul(v, UNITS[s].toBase), GRAVITY) / 1000.0 / UNITS[t].toBase))
  {
    ToBasePositive(t);
  }

  /** Force to mass: rounded to whole grams before the target unit is applied. */
  lemma ForceToMass(v: real, s: string, t: string)
    requires s in UNITS && t in UNITS && UNITS[s].category == Force && UNITS[t].category == Mass
    ensures UNITS[t].toBase > 0.0 && ConvertKnown(v, s, t).Ok?
    ensures var k := Round(Mul(Mul(v, UNITS[s].toBase), 1000.0) / GRAVITY);
      ConvertKnown(v, s, t).value == k as real / UNITS[t].toBase &&
      Mul(ConvertKnown(v, s, t).value, UNITS[t].toBase) == k as real
  {
    ToBasePositive(t);
    var k := Round(Mul(Mul(v, UNITS[s].toBase), 1000.0) / GRAVITY);
    MulDivCancel(k as real, UNITS[t].toBase);
  }
}
