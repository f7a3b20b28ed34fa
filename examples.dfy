/**
 * Concrete versions from the test suite of the source: what the parser
 * accepts and rejects, and the order the comparator puts them in.
 */
module Examples {
  import opened Wrappers
  import opened Text
  import opened Grammar
  import opened Comparison
  import opened SemVer

  /** The list the test suite sorts, in ascending precedence. */
  const OrderedStrVersions: seq<string> := [
    "1.0.0-alpha",
    "1.0.0-alpha.1",
    "1.0.0-alpha.beta",
    "1.0.0-beta",
    "1.0.0-beta.2",
    "1.0.0-beta.11",
    "1.0.0-rc.1",
    "1.0.0"]

  /** The fields of each of them. */
  const OrderedVersions: seq<Version> := [
    Version(1, 0, 0, ["alpha"], []),
    Version(1, 0, 0, ["alpha", "1"], []),
    Version(1, 0, 0, ["alpha", "beta"], []),
    Version(1, 0, 0, ["beta"], []),
    Version(1, 0, 0, ["beta", "2"], []),
    Version(1, 0, 0, ["beta", "11"], []),
    Version(1, 0, 0, ["rc", "1"], []),
    Version(1, 0, 0, [], [])]

  function Reverse<T>(s: seq<T>): (r: seq<T>)
    ensures |r| == |s|
  {
    if s == [] then [] else Reverse(s[1..]) + [s[0]]
  }

  lemma {:induction false} ReverseIsPermutation<T>(s: seq<T>)
    ensures multiset(Reverse(s)) == multiset(s)
  {
    if s != [] {
      ReverseIsPermutation(s[1..]);
      assert s == [s[0]] + s[1..];
    }
  }

  /** A well-formed version spelled by a string: the parser accepts the string with these fields. */
  lemma ParsesAs(s: string, v: Version)
    requires WellFormed(v) && Render(v) == s
    ensures Parse(s) == Some(v)
  {
    ParseComplete(v);
  }

  /** The text of a version from the text of its three parts. */
  lemma RenderFromParts(v: Version, core: string, pre: string, build: string)
    requires CoreText(v) == core && PreReleaseText(v) == pre && BuildText(v) == build
    ensures Render(v) == core + pre + build
  {
  }

  /** Every listed version has the core `1.0.0`. */
  lemma CoreOneZeroZero(pre: seq<string>, build: seq<string>)
    ensures CoreText(Version(1, 0, 0, pre, build)) == "1.0.0"
  {
    assert Decimal(1) == "1" && Decimal(0) == "0";
  }

  /** Every listed version is well formed. */
  lemma ListedWellFormed(i: nat)
    requires i < |OrderedVersions|
    ensures WellFormed(OrderedVersions[i])
  {
  }

  /** Every listed string starts with `1.0.0`, the core of every listed version. */
  lemma ListedCore(i: nat)
    requires i < |OrderedVersions|
    ensures |OrderedStrVersions[i]| >= 5 && OrderedStrVersions[i][..5] == "1.0.0"
    ensures OrderedVersions[i] == Version(1, 0, 0, OrderedVersions[i].preReleaseIdentifiers, [])
  {
  }

  /** After the core, every listed string is the pre-release text of its version. */
  lemma ListedPreReleaseText(i: nat)
    requires i < |OrderedVersions|
    ensures |OrderedStrVersions[i]| >= 5
    ensures PreReleaseText(OrderedVersions[i]) == OrderedStrVersions[i][5..]
  {
    var pre := OrderedVersions[i].preReleaseIdentifiers;
    if |pre| == 2 {
      assert Join(pre, '.') == pre[0] + "." + pre[1];
    }
  }

  /** Every listed string spells its version. */
  lemma ListedRender(i: nat)
    requires i < |OrderedVersions|
    ensures Render(OrderedVersions[i]) == OrderedStrVersions[i]
  {
    var s, v := OrderedStrVersions[i], OrderedVersions[i];
    ListedCore(i);
    ListedPreReleaseText(i);
    CoreOneZeroZero(v.preReleaseIdentifiers, []);
    RenderFromParts(v, "1.0.0", s[5..], "");
    assert s == s[..5] + s[5..];
  }

  /** Each listed string is valid and has the listed fields. */
  lemma ListedParses(i: nat)
    requires i < |OrderedStrVersions|
    ensures Parse(OrderedStrVersions[i]) == Some(OrderedVersions[i])
  {
    ListedWellFormed(i);
    ListedRender(i);
    ParsesAs(OrderedStrVersions[i], OrderedVersions[i]);
  }

  /** "parse basically several examples": every listed string is valid, with these fields. */
  lemma OrderedStrVersionsParse()
    ensures forall i | 0 <= i < |OrderedStrVersions| :: Parse(OrderedStrVersions[i]) == Some(OrderedVersions[i])
  {
    forall i | 0 <= i < |OrderedStrVersions|
      ensures Parse(OrderedStrVersions[i]) == Some(OrderedVersions[i])
    {
      ListedParses(i);
    }
  }

  /** Each listed version ranks below the next. */
  lemma ListedIncrease(i: nat)
    requires i + 1 < |OrderedVersions|
    ensures Precedence(OrderedVersions[i], OrderedVersions[i + 1]) == Lower
  {
    assert !IsDigits("alpha") by { assert !IsDigit("alpha"[0]); }
    assert !IsDigits("beta") by { assert !IsDigit("beta"[0]); }
    assert !IsDigits("rc") by { assert !IsDigit("rc"[0]); }
  }

  lemma OrderedVersionsIncrease()
    ensures StrictlyIncreasing(OrderedVersions)
  {
    forall i | 0 <= i < |OrderedVersions| - 1
      ensures Precedence(OrderedVersions[i], OrderedVersions[i + 1]) == Lower
    {
      ListedIncrease(i);
    }
  }

  /**
   * "comparison (order)": however the reversed list is sorted by `compare`,
   * the result is the original list.
   */
  lemma SortingReversedListRestoresOrder(sorted: seq<Version>)
    requires multiset(sorted) == multiset(Reverse(OrderedVersions)) && Sorted(sorted)
    ensures sorted == OrderedVersions
  {
    ReverseIsPermutation(OrderedVersions);
    OrderedVersionsIncrease();
    SortedArrangementIsUnique(OrderedVersions, sorted);
  }

  /** "comparison (same)": every listed version, once constructed, compares equal to itself. */
  lemma ListedVersionsEqualThemselves()
    ensures forall i | 0 <= i < |OrderedStrVersions| ::
      var v := AlreadyParsed(New(OrderedStrVersions[i]));
      Compared(v, v) == Success(Equal)
  {
    OrderedStrVersionsParse();
    forall i | 0 <= i < |OrderedStrVersions|
      ensures var v := AlreadyParsed(New(OrderedStrVersions[i])); Compared(v, v) == Success(Equal)
    {
      CompareReflexive(AlreadyParsed(New(OrderedStrVersions[i])));
    }
  }

  /** "parse simple version". */
  lemma ParsesSimpleVersion()
    ensures Parse("1.2.3") == Some(Version(1, 2, 3, [], []))
  {
    assert WellFormed(Version(1, 2, 3, [], [])) && Render(Version(1, 2, 3, [], [])) == "1.2.3";
    ParsesAs("1.2.3", Version(1, 2, 3, [], []));
  }

  /** "parse long version". */
  lemma ParsesLongVersion()
    ensures Parse("1.0.0-beta+exp.sha.5114f85") == Some(Version(1, 0, 0, ["beta"], ["exp", "sha", "5114f85"]))
  {
    LongVersionIdentifiers();
    LongVersionRender();
    ParsesAs("1.0.0-beta+exp.sha.5114f85", Version(1, 0, 0, ["beta"], ["exp", "sha", "5114f85"]));
  }
  lemma LongVersionRender()
    ensures Render(Version(1, 0, 0, ["beta"], ["exp", "sha", "5114f85"])) == "1.0.0-beta+exp.sha.5114f85"
  {
    CoreOneZeroZero(["beta"], ["exp", "sha", "5114f85"]);
    LongVersionPreReleaseText();
    LongVersionBuildText();
    RenderFromParts(Version(1, 0, 0, ["beta"], ["exp", "sha", "5114f85"]), "1.0.0", "-beta", "+exp.sha.5114f85");
  }
  lemma LongVersionPreReleaseText()
    ensures PreReleaseText(Version(1, 0, 0, ["beta"], ["exp", "sha", "5114f85"])) == "-beta"
  {
  }
  lemma LongVersionIdentifiers()
    ensures WellFormed(Version(1, 0, 0, ["beta"], ["exp", "sha", "5114f85"]))
  {
  }
  lemma LongVersionBuildText()
    ensures BuildText(Version(1, 0, 0, ["beta"], ["exp", "sha", "5114f85"])) == "+exp.sha.5114f85"
  {
    JoinThree("exp", "sha", "5114f85", '.');
  }

  /** Text without `+` or `-` is accepted only as three numeric identifiers. */
  lemma PlainCoreNeedsThreeNumbers(parts: seq<string>)
    requires |parts| > 0
    requires forall i | 0 <= i < |parts| :: '.' !in parts[i] && '+' !in parts[i] && '-' !in parts[i]
    ensures Parse(Join(parts, '.')).Some? ==>
      |parts| == 3 && IsNumericIdent(parts[0]) && IsNumericIdent(parts[1]) && IsNumericIdent(parts[2])
  {
    var s := Join(parts, '.');
    JoinAvoids(parts, '.', '+');
    JoinAvoids(parts, '.', '-');
    CutAtComplete(s, None, '+');
    CutAtComplete(s, None, '-');
    SplitJoin(parts, '.');
  }

  /** "reject simple error": a letter in the minor number. */
  lemma RejectsLetterInCore()
    ensures Parse("1.a.3") == None
  {
    assert Join(["1", "a", "3"], '.') == "1.a.3" by { JoinThree("1", "a", "3", '.'); }
    assert !IsNumericIdent("a") by { assert !IsDigit("a"[0]); }
    PlainCoreNeedsThreeNumbers(["1", "a", "3"]);
  }

  lemma RejectsLeadingZero()
    ensures Parse("01.2.3") == None
  {
    assert Join(["01", "2", "3"], '.') == "01.2.3" by { JoinThree("01", "2", "3", '.'); }
    PlainCoreNeedsThreeNumbers(["01", "2", "3"]);
  }

  lemma RejectsMissingPatch()
    ensures Parse("1.2") == None
  {
    PlainCoreNeedsThreeNumbers(["1", "2"]);
    assert Join(["1", "2"], '.') == "1.2";
  }

  /** Comparing two strings compares the fields they parse to. */
  lemma ComparedParsed(s1: string, s2: string, v: Version, w: Version)
    requires Parse(s1) == Some(v) && Parse(s2) == Some(w)
    ensures Compared(RawText(s1), RawText(s2)) == Success(Precedence(v, w))
  {
  }

  /** `1.0.0+build1` and `1.0.0+build2` are valid and differ only in their build metadata. */
  lemma ParsesBuild(build: string)
    requires build == "build1" || build == "build2"
    ensures Parse("1.0.0+" + build) == Some(Version(1, 0, 0, [], [build]))
  {
    assert IsIdentChars(build);
    CoreOneZeroZero([], [build]);
    RenderFromParts(Version(1, 0, 0, [], [build]), "1.0.0", "", "+" + build);
    ParsesAs("1.0.0+" + build, Version(1, 0, 0, [], [build]));
  }

  /** Build metadata does not take part in the comparison. */
  lemma CompareIgnoresBuildExample()
    ensures Compared(RawText("1.0.0+build1"), RawText("1.0.0+build2")) == Success(Equal)
  {
    ParsesBuild("build1");
    ParsesBuild("build2");
    assert "1.0.0+" + "build1" == "1.0.0+build1";
    assert "1.0.0+" + "build2" == "1.0.0+build2";
    ComparedParsed("1.0.0+build1", "1.0.0+build2", Version(1, 0, 0, [], ["build1"]), Version(1, 0, 0, [], ["build2"]));
  }

  /** A pre-release ranks below the release. */
  lemma ComparePreReleaseBelowRelease()
    ensures Compared(RawText("1.0.0-alpha"), RawText("1.0.0")) == Success(Lower)
  {
    AlphaParses();
    ListedParses(7);
    ComparedParsed("1.0.0-alpha", OrderedStrVersions[7], Version(1, 0, 0, ["alpha"], []), OrderedVersions[7]);
  }

  lemma ParsesNumericPreRelease()
    ensures Parse("1.0.0-1") == Some(Version(1, 0, 0, ["1"], []))
  {
    assert IsNumericIdent("1");
    CoreOneZeroZero(["1"], []);
    RenderFromParts(Version(1, 0, 0, ["1"], []), "1.0.0", "-1", "");
    ParsesAs("1.0.0-1", Version(1, 0, 0, ["1"], []));
  }

  lemma NumericBelowAlphanumeric()
    ensures Precedence(Version(1, 0, 0, ["1"], []), Version(1, 0, 0, ["alpha"], [])) == Lower
  {
    assert !IsDigits("alpha") by { assert !IsDigit("alpha"[0]); }
  }

  /** A numeric identifier ranks below an alphanumeric one. */
  lemma CompareNumericBelowAlphanumeric()
    ensures Compared(RawText("1.0.0-1"), RawText("1.0.0-alpha")) == Success(Lower)
  {
    ParsesNumericPreRelease();
    AlphaParses();
    NumericBelowAlphanumeric();
    ComparedParsed("1.0.0-1", "1.0.0-alpha", Version(1, 0, 0, ["1"], []), Version(1, 0, 0, ["alpha"], []));
  }

  lemma AlphaParses()
    ensures Parse("1.0.0-alpha") == Some(Version(1, 0, 0, ["alpha"], []))
  {
    ListedParses(0);
  }

  lemma AlphaOneParses()
    ensures Parse("1.0.0-alpha.1") == Some(Version(1, 0, 0, ["alpha", "1"], []))
  {
    ListedParses(1);
  }

  /** A proper prefix ranks below the longer list. */
  lemma ComparePrefixBelowLonger()
    ensures Compared(RawText("1.0.0-alpha"), RawText("1.0.0-alpha.1")) == Success(Lower)
  {
    AlphaParses();
    AlphaOneParses();
    ListedIncrease(0);
    ComparedParsed("1.0.0-alpha", "1.0.0-alpha.1", Version(1, 0, 0, ["alpha"], []), Version(1, 0, 0, ["alpha", "1"], []));
  }

  /** Comparing an invalid version is an error, not an ordering. */
  lemma CompareInvalidFails()
    ensures Compared(RawText("1.a.3"), RawText("1.0.0")) == Failure(InvalidOperand)
  {
    RejectsLetterInCore();
  }
}
