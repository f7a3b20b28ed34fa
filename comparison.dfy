/**
 * Precedence between versions (section 11 of SemVer 2.0.0): the recursive
 * definition that the comparator computes, a declarative restatement of the
 * rules of section 11, and the laws of a total order.
 */
module Comparison {
  import opened Text
  import opened Grammar

  /** The three outcomes of a comparison, with their numeric values. */
  datatype Ordering = Lower | Equal | Greater {

    /** `ComparisonResult`: Lower = -1, Equal = 0, Greater = 1. */
    function ToInt(): (n: int)
      ensures -1 <= n <= 1
      ensures (n < 0 <==> Lower?) && (n == 0 <==> Equal?) && (n > 0 <==> Greater?)
    {
      match this
      case Lower => -1
      case Equal => 0
      case Greater => 1
    }

    /** The outcome with the operands swapped. */
    function Flip(): Ordering {
      match this
      case Lower => Greater
      case Equal => Equal
      case Greater => Lower
    }
  }

  /** `x < y ? Lower : Greater` once `x !== y` is known, `Equal` otherwise. */
  function CompareNat(x: nat, y: nat): Ordering {
    if x == y then Equal else if x < y then Lower else Greater
  }

  /** The `<` of two strings: code-point order, a proper prefix first. */
  predicate LexLess(a: string, b: string) {
    if a == [] then b != []
    else if b == [] then false
    else if a[0] != b[0] then a[0] < b[0]
    else LexLess(a[1..], b[1..])
  }

  /**
   * One position of the pre-release loop: digits against digits by value,
   * other identifiers against each other as strings, and a numeric
   * identifier below an alphanumeric one.
   */
  function CompareIdentifiers(a: string, b: string): Ordering {
    var aNum := IsDigits(a);
    var bNum := IsDigits(b);
    if aNum && bNum then CompareNat(DigitsValue(a), DigitsValue(b))
    else if !aNum && !bNum then (if a == b then Equal else if LexLess(a, b) then Lower else Greater)
    else if aNum then Lower
    else Greater
  }

  /**
   * The pre-release loop: the first position that differs decides; when one
   * list is a prefix of the other, the shorter is lower.
   */
  function ComparePreRelease(xs: seq<string>, ys: seq<string>): Ordering
    decreases |xs|
  {
    if xs == [] || ys == [] then CompareNat(|xs|, |ys|)
    else
      var c := CompareIdentifiers(xs[0], ys[0]);
      if c != Equal then c else ComparePreRelease(xs[1..], ys[1..])
  }

  /**
   * The precedence of `v` relative to `w`: major, minor and patch in turn,
   * then a version without pre-release above one with, then the pre-release
   * lists. Build metadata is not consulted.
   */
  function Precedence(v: Version, w: Version): Ordering {
    if v.major != w.major then CompareNat(v.major, w.major)
    else if v.minor != w.minor then CompareNat(v.minor, w.minor)
    else if v.patch != w.patch then CompareNat(v.patch, w.patch)
    else if (v.preReleaseIdentifiers == []) != (w.preReleaseIdentifiers == []) then
      (if v.preReleaseIdentifiers != [] then Lower else Greater)
    else ComparePreRelease(v.preReleaseIdentifiers, w.preReleaseIdentifiers)
  }

  /* ---------------------------------------------------------------- */
  /* Section 11 stated declaratively                                   */
  /* ---------------------------------------------------------------- */

  /** Sections 11.4.1 to 11.4.3: when identifier `a` ranks below identifier `b`. */
  predicate IdentifierPrecedes(a: string, b: string) {
    || (IsDigits(a) && IsDigits(b) && DigitsValue(a) < DigitsValue(b))
    || (!IsDigits(a) && !IsDigits(b) && LexLess(a, b))
    || (IsDigits(a) && !IsDigits(b))
  }

  /**
   * Section 11.4: the first differing identifier decides (11.4.1-11.4.3);
   * a list that is a proper prefix of the other ranks below it (11.4.4).
   */
  predicate PreReleasePrecedes(xs: seq<string>, ys: seq<string>) {
    || (exists k | 0 <= k < |xs| && k < |ys| :: xs[..k] == ys[..k] && IdentifierPrecedes(xs[k], ys[k]))
    || (|xs| < |ys| && xs == ys[..|xs|])
  }

  /** Sections 11.2 and 11.3 on top of 11.4: when `v` ranks below `w`. */
  predicate Precedes(v: Version, w: Version) {
    || v.major < w.major
    || (v.major == w.major && v.minor < w.minor)
    || (v.major == w.major && v.minor == w.minor && v.patch < w.patch)
    || (&& v.major == w.major && v.minor == w.minor && v.patch == w.patch
        && v.preReleaseIdentifiers != []
        && (w.preReleaseIdentifiers == [] || PreReleasePrecedes(v.preReleaseIdentifiers, w.preReleaseIdentifiers)))
  }

  /** Two versions of equal precedence: everything but build metadata agrees. */
  predicate SamePrecedence(v: Version, w: Version) {
    && v.major == w.major && v.minor == w.minor && v.patch == w.patch
    && v.preReleaseIdentifiers == w.preReleaseIdentifiers
  }

  /* ---------------------------------------------------------------- */
  /* String order                                                      */
  /* ---------------------------------------------------------------- */

  lemma {:induction false} LexIrreflexive(a: string)
    ensures !LexLess(a, a)
  {
    if a != [] {
      LexIrreflexive(a[1..]);
    }
  }

  /** Of two different strings exactly one is below the other. */
  lemma {:induction false} LexTrichotomy(a: string, b: string)
    ensures a != b ==> LexLess(a, b) || LexLess(b, a)
    ensures !(LexLess(a, b) && LexLess(b, a))
  {
    if a != [] && b != [] && a[0] == b[0] {
      LexTrichotomy(a[1..], b[1..]);
      assert a == [a[0]] + a[1..] && b == [b[0]] + b[1..];
    }
  }

  lemma {:induction false} LexTransitive(a: string, b: string, c: string)
    requires LexLess(a, b) && LexLess(b, c)
    ensures LexLess(a, c)
  {
    if a != [] && a[0] == b[0] && b[0] == c[0] {
      LexTransitive(a[1..], b[1..], c[1..]);
    }
  }

  /* ---------------------------------------------------------------- */
  /* Identifiers                                                       */
  /* ---------------------------------------------------------------- */

  lemma IdentifierFlip(a: string, b: string)
    ensures CompareIdentifiers(b, a) == CompareIdentifiers(a, b).Flip()
  {
    LexTrichotomy(a, b);
  }

  /** The loop's identifier step agrees with sections 11.4.1-11.4.3. */
  lemma IdentifierLowerIffPrecedes(a: string, b: string)
    ensures CompareIdentifiers(a, b) == Lower <==> IdentifierPrecedes(a, b)
  {
    LexIrreflexive(a);
  }

  /** A pre-release identifier is all digits exactly when it is numeric. */
  lemma PreReleaseIdentDigits(a: string)
    requires IsPreReleaseIdent(a)
    ensures IsDigits(a) <==> IsNumericIdent(a)
  {
  }

  /** Valid identifiers of equal rank are the same identifier. */
  lemma IdentifierEqual(a: string, b: string)
    requires IsPreReleaseIdent(a) && IsPreReleaseIdent(b)
    ensures CompareIdentifiers(a, b) == Equal <==> a == b
  {
    PreReleaseIdentDigits(a);
    PreReleaseIdentDigits(b);
    if IsDigits(a) && IsDigits(b) {
      NumericIdentInjective(a, b);
    }
  }

  lemma IdentifierTransitive(a: string, b: string, c: string)
    ensures CompareIdentifiers(a, b) != Greater && CompareIdentifiers(b, c) != Greater
      ==> CompareIdentifiers(a, c) != Greater
    ensures CompareIdentifiers(a, b) == Lower && CompareIdentifiers(b, c) != Greater
      ==> CompareIdentifiers(a, c) == Lower
    ensures CompareIdentifiers(a, b) != Greater && CompareIdentifiers(b, c) == Lower
      ==> CompareIdentifiers(a, c) == Lower
    ensures CompareIdentifiers(a, b) == Equal && CompareIdentifiers(b, c) == Equal
      ==> CompareIdentifiers(a, c) == Equal
  {
    if !IsDigits(a) && !IsDigits(b) && !IsDigits(c) {
      LexTrichotomy(a, c);
      if LexLess(a, b) && LexLess(b, c) {
        LexTransitive(a, b, c);
      }
    }
  }

  /* ---------------------------------------------------------------- */
  /* Pre-release lists                                                 */
  /* ---------------------------------------------------------------- */

  lemma {:induction false} PreReleaseReflexive(xs: seq<string>)
    ensures ComparePreRelease(xs, xs) == Equal
  {
    if xs != [] {
      PreReleaseReflexive(xs[1..]);
    }
  }

  lemma {:induction false} PreReleaseFlip(xs: seq<string>, ys: seq<string>)
    ensures ComparePreRelease(ys, xs) == ComparePreRelease(xs, ys).Flip()
    decreases |xs|
  {
    if xs != [] && ys != [] {
      IdentifierFlip(xs[0], ys[0]);
      PreReleaseFlip(xs[1..], ys[1..]);
    }
  }

  lemma {:induction false} PreReleaseEqual(xs: seq<string>, ys: seq<string>)
    requires forall i | 0 <= i < |xs| :: IsPreReleaseIdent(xs[i])
    requires forall i | 0 <= i < |ys| :: IsPreReleaseIdent(ys[i])
    ensures ComparePreRelease(xs, ys) == Equal <==> xs == ys
    decreases |xs|
  {
    if xs != [] && ys != [] {
      IdentifierEqual(xs[0], ys[0]);
      PreReleaseEqual(xs[1..], ys[1..]);
      assert xs == [xs[0]] + xs[1..] && ys == [ys[0]] + ys[1..];
    }
  }

  lemma {:induction false} PreReleaseTransitive(xs: seq<string>, ys: seq<string>, zs: seq<string>)
    ensures ComparePreRelease(xs, ys) != Greater && ComparePreRelease(ys, zs) != Greater
      ==> ComparePreRelease(xs, zs) != Greater
    ensures ComparePreRelease(xs, ys) == Lower && ComparePreRelease(ys, zs) != Greater
      ==> ComparePreRelease(xs, zs) == Lower
    ensures ComparePreRelease(xs, ys) != Greater && ComparePreRelease(ys, zs) == Lower
      ==> ComparePreRelease(xs, zs) == Lower
    ensures ComparePreRelease(xs, ys) == Equal && ComparePreRelease(ys, zs) == Equal
      ==> ComparePreRelease(xs, zs) == Equal
    decreases |xs|
  {
    if xs != [] && ys != [] && zs != [] {
      IdentifierTransitive(xs[0], ys[0], zs[0]);
      PreReleaseTransitive(xs[1..], ys[1..], zs[1..]);
    }
  }

  /** No identifier ranks below itself. */
  lemma IdentifierIrreflexive(a: string)
    ensures !IdentifierPrecedes(a, a)
  {
    LexIrreflexive(a);
  }

  /** Prepending the same identifier to both lists keeps section 11.4's verdict... */
  lemma PrecedesConsIntro(x: string, xs: seq<string>, ys: seq<string>)
    requires PreReleasePrecedes(xs, ys)
    ensures PreReleasePrecedes([x] + xs, [x] + ys)
  {
    var xs', ys' := [x] + xs, [x] + ys;
    if exists k | 0 <= k < |xs| && k < |ys| :: xs[..k] == ys[..k] && IdentifierPrecedes(xs[k], ys[k]) {
      var k :| 0 <= k < |xs| && k < |ys| && xs[..k] == ys[..k] && IdentifierPrecedes(xs[k], ys[k]);
      assert xs'[..k + 1] == [x] + xs[..k] && ys'[..k + 1] == [x] + ys[..k];
      assert xs'[k + 1] == xs[k] && ys'[k + 1] == ys[k];
    } else {
      assert xs' == ys'[..|xs'|];
    }
  }

  /** ...and removing it does too, since no identifier ranks below itself. */
  lemma PrecedesConsElim(x: string, xs: seq<string>, ys: seq<string>)
    requires PreReleasePrecedes([x] + xs, [x] + ys)
    ensures PreReleasePrecedes(xs, ys)
  {
    var xs', ys' := [x] + xs, [x] + ys;
    if exists k | 0 <= k < |xs'| && k < |ys'| :: xs'[..k] == ys'[..k] && IdentifierPrecedes(xs'[k], ys'[k]) {
      var k :| 0 <= k < |xs'| && k < |ys'| && xs'[..k] == ys'[..k] && IdentifierPrecedes(xs'[k], ys'[k]);
      assert k != 0 by {
        IdentifierIrreflexive(x);
        assert xs'[0] == x && ys'[0] == x;
      }
      assert xs[..k - 1] == xs'[..k][1..] && ys[..k - 1] == ys'[..k][1..];
      assert xs[k - 1] == xs'[k] && ys[k - 1] == ys'[k];
      assert xs[..k - 1] == ys[..k - 1] && IdentifierPrecedes(xs[k - 1], ys[k - 1]);
    } else {
      assert xs == xs'[1..] && ys[..|xs|] == ys'[..|xs'|][1..];
    }
  }

  /** The pre-release loop ranks `xs` below `ys` exactly when section 11.4 does. */
  lemma {:induction false} PreReleaseLowerIffPrecedes(xs: seq<string>, ys: seq<string>)
    requires forall i | 0 <= i < |xs| :: IsPreReleaseIdent(xs[i])
    requires forall i | 0 <= i < |ys| :: IsPreReleaseIdent(ys[i])
    ensures ComparePreRelease(xs, ys) == Lower <==> PreReleasePrecedes(xs, ys)
    decreases |xs|
  {
    if xs == [] {
      assert ys != [] ==> xs == ys[..0];
    } else if ys != [] {
      var c := CompareIdentifiers(xs[0], ys[0]);
      IdentifierLowerIffPrecedes(xs[0], ys[0]);
      IdentifierEqual(xs[0], ys[0]);
      if c == Lower {
        assert xs[..0] == ys[..0];
      } else if c == Greater {
        forall k | 0 <= k < |xs| && k < |ys| && xs[..k] == ys[..k]
          ensures !IdentifierPrecedes(xs[k], ys[k])
        {
        }
      } else {
        PreReleaseLowerIffPrecedes(xs[1..], ys[1..]);
        if PreReleasePrecedes(xs[1..], ys[1..]) {
          PrecedesConsIntro(xs[0], xs[1..], ys[1..]);
        }
        if PreReleasePrecedes([xs[0]] + xs[1..], [xs[0]] + ys[1..]) {
          PrecedesConsElim(xs[0], xs[1..], ys[1..]);
        }
        assert xs == [xs[0]] + xs[1..] && ys == [xs[0]] + ys[1..];
      }
    }
  }

  /* ---------------------------------------------------------------- */
  /* Versions                                                          */
  /* ---------------------------------------------------------------- */

  /** Every version has the same precedence as itself. */
  lemma PrecedenceReflexive(v: Version)
    ensures Precedence(v, v) == Equal
  {
    PreReleaseReflexive(v.preReleaseIdentifiers);
  }

  /** Swapping the operands flips the outcome. */
  lemma PrecedenceAntisymmetric(v: Version, w: Version)
    ensures Precedence(w, v) == Precedence(v, w).Flip()
  {
    PreReleaseFlip(v.preReleaseIdentifiers, w.preReleaseIdentifiers);
  }

  lemma PrecedenceTransitive(u: Version, v: Version, w: Version)
    ensures Precedence(u, v) != Greater && Precedence(v, w) != Greater ==> Precedence(u, w) != Greater
    ensures Precedence(u, v) == Lower && Precedence(v, w) != Greater ==> Precedence(u, w) == Lower
    ensures Precedence(u, v) != Greater && Precedence(v, w) == Lower ==> Precedence(u, w) == Lower
    ensures Precedence(u, v) == Equal && Precedence(v, w) == Equal ==> Precedence(u, w) == Equal
  {
    PreReleaseTransitive(u.preReleaseIdentifiers, v.preReleaseIdentifiers, w.preReleaseIdentifiers);
  }

  /**
   * On well-formed versions the comparator is exactly section 11: lower when
   * section 11 puts `v` first, equal when only build metadata differs, and
   * greater when section 11 puts `w` first.
   */
  lemma PrecedenceMatchesSection11(v: Version, w: Version)
    requires WellFormed(v) && WellFormed(w)
    ensures Precedence(v, w) == Lower <==> Precedes(v, w)
    ensures Precedence(v, w) == Equal <==> SamePrecedence(v, w)
    ensures Precedence(v, w) == Greater <==> Precedes(w, v)
  {
    PreReleaseLowerIffPrecedes(v.preReleaseIdentifiers, w.preReleaseIdentifiers);
    PreReleaseLowerIffPrecedes(w.preReleaseIdentifiers, v.preReleaseIdentifiers);
    PreReleaseEqual(v.preReleaseIdentifiers, w.preReleaseIdentifiers);
    PreReleaseFlip(v.preReleaseIdentifiers, w.preReleaseIdentifiers);
  }

  /** Build metadata never changes the outcome. */
  lemma PrecedenceIgnoresBuild(v: Version, w: Version, b: seq<string>, c: seq<string>)
    ensures Precedence(v.(buildMetadataIdentifiers := b), w.(buildMetadataIdentifiers := c)) == Precedence(v, w)
  {
  }

  /* ---------------------------------------------------------------- */
  /* Section 11 is a strict total order on valid versions              */
  /* ---------------------------------------------------------------- */

  /**
   * Precedence is irreflexive, asymmetric and transitive, and any two
   * valid versions are ordered one way or the other unless they have the
   * same precedence.
   */
  lemma PrecedesIsStrictTotalOrder(u: Version, v: Version, w: Version)
    requires WellFormed(u) && WellFormed(v) && WellFormed(w)
    ensures !Precedes(v, v)
    ensures Precedes(v, w) ==> !Precedes(w, v)
    ensures Precedes(u, v) && Precedes(v, w) ==> Precedes(u, w)
    ensures Precedes(v, w) || SamePrecedence(v, w) || Precedes(w, v)
  {
    PrecedenceReflexive(v);
    PrecedenceMatchesSection11(v, v);
    PrecedenceMatchesSection11(v, w);
    PrecedenceMatchesSection11(u, v);
    PrecedenceMatchesSection11(u, w);
    PrecedenceTransitive(u, v, w);
  }

  /* ---------------------------------------------------------------- */
  /* Sorting by the comparator                                         */
  /* ---------------------------------------------------------------- */

  /** No version ranks above the next one: what a sort by `compare` produces. */
  predicate Sorted(vs: seq<Version>) {
    forall i | 0 <= i < |vs| - 1 :: Precedence(vs[i], vs[i + 1]) != Greater
  }

  /** Every version ranks strictly below the next one. */
  predicate StrictlyIncreasing(vs: seq<Version>) {
    forall i | 0 <= i < |vs| - 1 :: Precedence(vs[i], vs[i + 1]) == Lower
  }

  lemma {:induction false} SortedPairwise(vs: seq<Version>, i: nat, j: nat)
    requires Sorted(vs) && i <= j < |vs|
    ensures Precedence(vs[i], vs[j]) != Greater
    decreases j - i
  {
    if i == j {
      PrecedenceReflexive(vs[i]);
    } else {
      SortedPairwise(vs, i, j - 1);
      PrecedenceTransitive(vs[i], vs[j - 1], vs[j]);
    }
  }

  lemma {:induction false} StrictlyIncreasingPairwise(vs: seq<Version>, i: nat, j: nat)
    requires StrictlyIncreasing(vs) && i < j < |vs|
    ensures Precedence(vs[i], vs[j]) == Lower
    decreases j - i
  {
    if i + 1 < j {
      StrictlyIncreasingPairwise(vs, i, j - 1);
      PrecedenceTransitive(vs[i], vs[j - 1], vs[j]);
    }
  }

  lemma SortedTails(xs: seq<Version>, ys: seq<Version>)
    requires StrictlyIncreasing(xs) && Sorted(ys) && xs != [] && ys != []
    ensures StrictlyIncreasing(xs[1..]) && Sorted(ys[1..])
  {
    forall i | 0 <= i < |xs[1..]| - 1 ensures Precedence(xs[1..][i], xs[1..][i + 1]) == Lower {
      assert xs[1..][i] == xs[i + 1] && xs[1..][i + 1] == xs[i + 2];
    }
    forall i | 0 <= i < |ys[1..]| - 1 ensures Precedence(ys[1..][i], ys[1..][i + 1]) != Greater {
      assert ys[1..][i] == ys[i + 1] && ys[1..][i + 1] == ys[i + 2];
    }
  }

  /** The least element of a strictly increasing list comes first in every sorted arrangement. */
  lemma SortedHeadsAgree(xs: seq<Version>, ys: seq<Version>)
    requires StrictlyIncreasing(xs) && Sorted(ys) && multiset(xs) == multiset(ys) && xs != []
    ensures ys != [] && ys[0] == xs[0]
  {
    assert xs[0] in multiset(ys);
    var m :| 0 <= m < |ys| && ys[m] == xs[0];
    assert ys[0] in multiset(xs);
    var k :| 0 <= k < |xs| && xs[k] == ys[0];
    if k != 0 {
      StrictlyIncreasingPairwise(xs, 0, k);
      SortedPairwise(ys, 0, m);
      PrecedenceAntisymmetric(ys[0], xs[0]);
      assert false;
    }
  }

  /**
   * A strictly increasing list is the only sorted arrangement of its
   * elements: sorting any permutation of it by `compare` gives it back.
   */
  lemma {:induction false} SortedArrangementIsUnique(xs: seq<Version>, ys: seq<Version>)
    requires StrictlyIncreasing(xs) && Sorted(ys) && multiset(xs) == multiset(ys)
    ensures ys == xs
    decreases |xs|
  {
    if xs == [] {
      assert |ys| == |multiset(ys)| == 0;
    } else {
      SortedHeadsAgree(xs, ys);
      assert xs == [xs[0]] + xs[1..] && ys == [ys[0]] + ys[1..];
      assert multiset(xs[1..]) == multiset(xs) - multiset{xs[0]};
      assert multiset(ys[1..]) == multiset(ys) - multiset{ys[0]};
      SortedTails(xs, ys);
      SortedArrangementIsUnique(xs[1..], ys[1..]);
    }
  }
}
