/**
 * The `SemVersion` class: a version string with the fields parsed from it,
 * the comparator over version-or-string operands, its relational
 * predicates in static and instance form, and the string conversion.
 */
module SemVer {
  import opened Wrappers
  import opened Text
  import opened Grammar
  import opened Comparison

  /** The error `compare` raises: "You can only compare valid versions". */
  datatype CompareError = InvalidOperand

  /**
   * A version as the source holds it: the string it was built from and,
   * fixed by that string, its validity and its fields. Nothing changes
   * after construction.
   */
  datatype SemVersion = SemVersion(strVersion: string) {

    /** The parsed fields; `None` for an invalid string. */
    function Fields(): Option<Version> {
      Parse(strVersion)
    }

    predicate IsValid() {
      Fields().Some?
    }

    function ToString(): string {
      strVersion
    }

    /** `compareTo`: this version against `comparison`. */
    method CompareTo(comparison: Operand) returns (r: Result<Ordering, CompareError>)
      ensures r == Compared(AlreadyParsed(this), comparison)
      ensures r.Failure? <==> !IsValid() || FieldsOf(comparison).None?
      ensures r.Success? ==>
        && (r.value == Lower <==> Precedes(Fields().value, FieldsOf(comparison).value))
        && (r.value == Equal <==> SamePrecedence(Fields().value, FieldsOf(comparison).value))
        && (r.value == Greater <==> Precedes(FieldsOf(comparison).value, Fields().value))
    {
      r := Compare(AlreadyParsed(this), comparison);
    }

    /** `gt`: this version ranks strictly above `comparison`. */
    method Gt(comparison: Operand) returns (r: Result<bool, CompareError>)
      ensures r.Failure? <==> !IsValid() || FieldsOf(comparison).None?
      ensures r.Success? ==> (r.value <==> Precedes(FieldsOf(comparison).value, Fields().value))
    {
      var c :- Compare(AlreadyParsed(this), comparison);
      ComparedMatchesSection11(AlreadyParsed(this), comparison);
      return Success(c.ToInt() > 0);
    }

    /** `ge`: this version ranks at or above `comparison`. */
    method Ge(comparison: Operand) returns (r: Result<bool, CompareError>)
      ensures r.Failure? <==> !IsValid() || FieldsOf(comparison).None?
      ensures r.Success? ==> (r.value <==> !Precedes(Fields().value, FieldsOf(comparison).value))
    {
      var c :- Compare(AlreadyParsed(this), comparison);
      ComparedMatchesSection11(AlreadyParsed(this), comparison);
      return Success(c.ToInt() >= 0);
    }

    /** `lt`: this version ranks strictly below `comparison`. */
    method Lt(comparison: Operand) returns (r: Result<bool, CompareError>)
      ensures r.Failure? <==> !IsValid() || FieldsOf(comparison).None?
      ensures r.Success? ==> (r.value <==> Precedes(Fields().value, FieldsOf(comparison).value))
    {
      var c :- Compare(AlreadyParsed(this), comparison);
      ComparedMatchesSection11(AlreadyParsed(this), comparison);
      return Success(c.ToInt() < 0);
    }

    /** `le`: this version ranks at or below `comparison`. */
    method Le(comparison: Operand) returns (r: Result<bool, CompareError>)
      ensures r.Failure? <==> !IsValid() || FieldsOf(comparison).None?
      ensures r.Success? ==> (r.value <==> !Precedes(FieldsOf(comparison).value, Fields().value))
    {
      var c :- Compare(AlreadyParsed(this), comparison);
      ComparedMatchesSection11(AlreadyParsed(this), comparison);
      return Success(c.ToInt() <= 0);
    }

    /** `eq`: this version has the same precedence as `comparison`. */
    method Eq(comparison: Operand) returns (r: Result<bool, CompareError>)
      ensures r.Failure? <==> !IsValid() || FieldsOf(comparison).None?
      ensures r.Success? ==> (r.value <==> SamePrecedence(Fields().value, FieldsOf(comparison).value))
    {
      var c :- Compare(AlreadyParsed(this), comparison);
      ComparedMatchesSection11(AlreadyParsed(this), comparison);
      return Success(c.ToInt() == 0);
    }
  }

  /**
   * `new SemVersion(strVersion)`: keeps the string; the version is valid
   * exactly when the string is in the grammar, and then its fields spell
   * the string back.
   */
  function New(strVersion: string): (v: SemVersion)
    ensures v.ToString() == strVersion
    ensures v.IsValid() <==> exists w :: WellFormed(w) && Render(w) == strVersion
    ensures v.IsValid() ==> WellFormed(v.Fields().value) && Render(v.Fields().value) == strVersion
  {
    ParseAcceptsExactlyTheGrammar(strVersion);
    ParseSound(strVersion);
    SemVersion(strVersion)
  }

  /** An operand of the comparator: `SemVersion | string`. */
  datatype Operand = AlreadyParsed(version: SemVersion) | RawText(text: string)

  /** A string operand is parsed before it is compared. */
  function Resolve(op: Operand): SemVersion {
    match op
    case AlreadyParsed(v) => v
    case RawText(s) => New(s)
  }

  function FieldsOf(op: Operand): Option<Version> {
    Resolve(op).Fields()
  }

  /** The outcome of `compare`: an error unless both operands are valid, else their precedence. */
  function Compared(version1: Operand, version2: Operand): Result<Ordering, CompareError> {
    var f1, f2 := FieldsOf(version1), FieldsOf(version2);
    if f1.None? || f2.None? then Failure(InvalidOperand) else Success(Precedence(f1.value, f2.value))
  }

  /**
   * `compare`: both operands resolved, the error for an invalid one, then
   * core fields, pre-release presence, and the pre-release loop.
   */
  method Compare(version1: Operand, version2: Operand) returns (r: Result<Ordering, CompareError>)
    ensures r == Compared(version1, version2)
    ensures r.Failure? <==> FieldsOf(version1).None? || FieldsOf(version2).None?
    ensures r.Success? ==>
      && (r.value == Lower <==> Precedes(FieldsOf(version1).value, FieldsOf(version2).value))
      && (r.value == Equal <==> SamePrecedence(FieldsOf(version1).value, FieldsOf(version2).value))
      && (r.value == Greater <==> Precedes(FieldsOf(version2).value, FieldsOf(version1).value))
  {
    var v1 := Resolve(version1);
    var v2 := Resolve(version2);
    assert FieldsOf(version1) == v1.Fields() && FieldsOf(version2) == v2.Fields();
    if !v1.IsValid() || !v2.IsValid() {
      return Failure(InvalidOperand);
    }
    ComparedMatchesSection11(version1, version2);
    var f1, f2 := v1.Fields().value, v2.Fields().value;
    assert Compared(version1, version2) == Success(Precedence(f1, f2));
    if f1.major != f2.major {
      return Success(if f1.major < f2.major then Lower else Greater);
    }
    if f1.minor != f2.minor {
      return Success(if f1.minor < f2.minor then Lower else Greater);
    }
    if f1.patch != f2.patch {
      return Success(if f1.patch < f2.patch then Lower else Greater);
    }
    var p1, p2 := f1.preReleaseIdentifiers, f2.preReleaseIdentifiers;
    if (|p1| == 0) != (|p2| == 0) {
      return Success(if |p1| != 0 then Lower else Greater);
    }
    var o := ComparePreReleaseLoop(p1, p2);
    return Success(o);
  }

  /**
   * The pre-release loop of `compare`: position by position over the shared
   * length, returning at the first decisive identifier, then the lengths.
   */
  method ComparePreReleaseLoop(p1: seq<string>, p2: seq<string>) returns (o: Ordering)
    ensures o == ComparePreRelease(p1, p2)
  {
    var n := if |p1| < |p2| then |p1| else |p2|;
    var pos := 0;
    while pos < n
      invariant 0 <= pos <= n
      invariant ComparePreRelease(p1, p2) == ComparePreRelease(p1[pos..], p2[pos..])
    {
      var val1, val2 := p1[pos], p2[pos];
      var isV1Num, isV2Num := IsDigits(val1), IsDigits(val2);
      if isV1Num && isV2Num {
        var numVal1, numVal2 := DigitsValue(val1), DigitsValue(val2);
        if numVal1 != numVal2 {
          return if numVal1 < numVal2 then Lower else Greater;
        }
      } else if !isV1Num && !isV2Num {
        if val1 != val2 {
          return if LexLess(val1, val2) then Lower else Greater;
        }
      } else {
        return if isV1Num then Lower else Greater;
      }
      assert p1[pos..][1..] == p1[pos + 1..] && p2[pos..][1..] == p2[pos + 1..];
      pos := pos + 1;
    }
    if |p1| != |p2| {
      return if |p1| < |p2| then Lower else Greater;
    }
    return Equal;
  }

  /** Both operands are valid, so `compare` returns an ordering. */
  predicate Comparable(version1: Operand, version2: Operand) {
    FieldsOf(version1).Some? && FieldsOf(version2).Some?
  }

  /** The ordering `compare` returns is the one section 11 prescribes. */
  lemma ComparedMatchesSection11(version1: Operand, version2: Operand)
    requires Comparable(version1, version2)
    ensures var v, w := FieldsOf(version1).value, FieldsOf(version2).value;
      && (Compared(version1, version2) == Success(Lower) <==> Precedes(v, w))
      && (Compared(version1, version2) == Success(Equal) <==> SamePrecedence(v, w))
      && (Compared(version1, version2) == Success(Greater) <==> Precedes(w, v))
  {
    var v, w := FieldsOf(version1).value, FieldsOf(version2).value;
    ParseSound(Resolve(version1).strVersion);
    ParseSound(Resolve(version2).strVersion);
    PrecedenceMatchesSection11(v, w);
  }

  /** `gt`: `version1` ranks strictly above `version2`. */
  method Gt(version1: Operand, version2: Operand) returns (r: Result<bool, CompareError>)
    ensures r.Failure? <==> !Comparable(version1, version2)
    ensures r.Success? ==> (r.value <==> Precedes(FieldsOf(version2).value, FieldsOf(version1).value))
  {
    var c :- Compare(version1, version2);
    ComparedMatchesSection11(version1, version2);
    return Success(c.ToInt() > 0);
  }

  /** `ge`: `version1` ranks at or above `version2`. */
  method Ge(version1: Operand, version2: Operand) returns (r: Result<bool, CompareError>)
    ensures r.Failure? <==> !Comparable(version1, version2)
    ensures r.Success? ==> (r.value <==> !Precedes(FieldsOf(version1).value, FieldsOf(version2).value))
  {
    var c :- Compare(version1, version2);
    ComparedMatchesSection11(version1, version2);
    return Success(c.ToInt() >= 0);
  }

  /** `lt`: `version1` ranks strictly below `version2`. */
  method Lt(version1: Operand, version2: Operand) returns (r: Result<bool, CompareError>)
    ensures r.Failure? <==> !Comparable(version1, version2)
    ensures r.Success? ==> (r.value <==> Precedes(FieldsOf(version1).value, FieldsOf(version2).value))
  {
    var c :- Compare(version1, version2);
    ComparedMatchesSection11(version1, version2);
    return Success(c.ToInt() < 0);
  }

  /** `le`: `version1` ranks at or below `version2`. */
  method Le(version1: Operand, version2: Operand) returns (r: Result<bool, CompareError>)
    ensures r.Failure? <==> !Comparable(version1, version2)
    ensures r.Success? ==> (r.value <==> !Precedes(FieldsOf(version2).value, FieldsOf(version1).value))
  {
    var c :- Compare(version1, version2);
    ComparedMatchesSection11(version1, version2);
    return Success(c.ToInt() <= 0);
  }

  /** `eq`: `version1` and `version2` have the same precedence. */
  method Eq(version1: Operand, version2: Operand) returns (r: Result<bool, CompareError>)
    ensures r.Failure? <==> !Comparable(version1, version2)
    ensures r.Success? ==> (r.value <==> SamePrecedence(FieldsOf(version1).value, FieldsOf(version2).value))
  {
    var c :- Compare(version1, version2);
    ComparedMatchesSection11(version1, version2);
    return Success(c.ToInt() == 0);
  }

  /* ---------------------------------------------------------------- */
  /* Laws of `compare` over operands                                   */
  /* ---------------------------------------------------------------- */

  /** `eq(v, v)`: a valid operand compares equal to itself. */
  lemma CompareReflexive(version: Operand)
    requires FieldsOf(version).Some?
    ensures Compared(version, version) == Success(Equal)
  {
    PrecedenceReflexive(FieldsOf(version).value);
  }

  /** Swapping the operands flips the ordering; an invalid operand fails either way round. */
  lemma CompareAntisymmetric(version1: Operand, version2: Operand)
    ensures Compared(version2, version1).Failure? <==> Compared(version1, version2).Failure?
    ensures Compared(version1, version2).Success? ==>
      Compared(version2, version1).value == Compared(version1, version2).value.Flip()
  {
    if Comparable(version1, version2) {
      PrecedenceAntisymmetric(FieldsOf(version1).value, FieldsOf(version2).value);
    }
  }

  lemma CompareTransitive(version1: Operand, version2: Operand, version3: Operand)
    requires Comparable(version1, version2) && Comparable(version2, version3)
    ensures Compared(version1, version3).Success?
    ensures Compared(version1, version2).value != Greater && Compared(version2, version3).value != Greater
      ==> Compared(version1, version3).value != Greater
    ensures Compared(version1, version2).value == Lower && Compared(version2, version3).value != Greater
      ==> Compared(version1, version3).value == Lower
    ensures Compared(version1, version2).value != Greater && Compared(version2, version3).value == Lower
      ==> Compared(version1, version3).value == Lower
  {
    PrecedenceTransitive(FieldsOf(version1).value, FieldsOf(version2).value, FieldsOf(version3).value);
  }

  /** `toString` gives back the constructor's string, and rebuilding from it gives the same version. */
  lemma ToStringIsSource(v: SemVersion)
    ensures New(v.ToString()) == v
  {
  }
}
