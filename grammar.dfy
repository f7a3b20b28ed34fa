/**
 * The Semantic Versioning 2.0.0 grammar: the fields of a version, the text
 * that spells a version, and a recogniser that accepts exactly that text
 * and extracts the fields from it.
 */
module Grammar {
  import opened Wrappers
  import opened Text

  /** The fields of a valid version string, as the parser extracts them. */
  datatype Version = Version(
    major: nat,
    minor: nat,
    patch: nat,
    preReleaseIdentifiers: seq<string>,
    buildMetadataIdentifiers: seq<string>)

  /** `\d*[a-zA-Z-][0-9a-zA-Z-]*`: identifier characters with at least one non-digit. */
  predicate IsAlphanumericIdent(s: string) {
    IsIdentChars(s) && !AllDigits(s)
  }

  /** A pre-release identifier (section 9 of SemVer 2.0.0). */
  predicate IsPreReleaseIdent(s: string) {
    IsNumericIdent(s) || IsAlphanumericIdent(s)
  }

  /** A build metadata identifier (section 10 of SemVer 2.0.0). */
  predicate IsBuildIdent(s: string) {
    IsIdentChars(s)
  }

  /** Every identifier of `v` is allowed by the grammar. */
  predicate WellFormed(v: Version) {
    && (forall i | 0 <= i < |v.preReleaseIdentifiers| :: IsPreReleaseIdent(v.preReleaseIdentifiers[i]))
    && (forall i | 0 <= i < |v.buildMetadataIdentifiers| :: IsBuildIdent(v.buildMetadataIdentifiers[i]))
  }

  /** The `major.minor.patch` text of a version. */
  function CoreText(v: Version): string {
    Decimal(v.major) + "." + Decimal(v.minor) + "." + Decimal(v.patch)
  }

  /** The optional `-pre.release` part. */
  function PreReleaseText(v: Version): string {
    if v.preReleaseIdentifiers == [] then "" else "-" + Join(v.preReleaseIdentifiers, '.')
  }

  /** The optional `+build.metadata` part. */
  function BuildText(v: Version): string {
    if v.buildMetadataIdentifiers == [] then "" else "+" + Join(v.buildMetadataIdentifiers, '.')
  }

  /**
   * The one string that spells `v`:
   * `core ["-" preRelease] ["+" buildMetadata]`, numbers without leading zeros.
   * The strings of the grammar are exactly the `Render(v)` of well-formed `v`.
   */
  function Render(v: Version): string {
    CoreText(v) + PreReleaseText(v) + BuildText(v)
  }

  /** `major.minor.patch`: exactly three numeric identifiers, read in base 10. */
  function ParseCore(core: string): Option<(nat, nat, nat)> {
    var nums := Split(core, '.');
    if |nums| == 3 && IsNumericIdent(nums[0]) && IsNumericIdent(nums[1]) && IsNumericIdent(nums[2])
    then Some((DigitsValue(nums[0]), DigitsValue(nums[1]), DigitsValue(nums[2])))
    else None
  }

  /** The pre-release identifiers: none without a `-`, else the dot-split segments, all valid. */
  function ParsePreRelease(pre: Option<string>): Option<seq<string>> {
    if pre.None? then Some([])
    else
      var ids := Split(pre.value, '.');
      if forall i | 0 <= i < |ids| :: IsPreReleaseIdent(ids[i]) then Some(ids) else None
  }

  /** The build metadata identifiers: none without a `+`, else the dot-split segments, all valid. */
  function ParseBuild(build: Option<string>): Option<seq<string>> {
    if build.None? then Some([])
    else
      var ids := Split(build.value, '.');
      if forall i | 0 <= i < |ids| :: IsBuildIdent(ids[i]) then Some(ids) else None
  }

  /**
   * The recogniser: the fields of `s` when `s` is a valid version string,
   * `None` otherwise. Build metadata starts at the first `+` (no other part
   * may hold one), the pre-release at the first `-` before it (the core holds
   * none), and every part is split on `.`.
   */
  function Parse(s: string): Option<Version> {
    var (head, build) := CutAt(s, '+');
    var (core, pre) := CutAt(head, '-');
    var nums := ParseCore(core);
    var preIds := ParsePreRelease(pre);
    var buildIds := ParseBuild(build);
    if nums.Some? && preIds.Some? && buildIds.Some?
    then Some(Version(nums.value.0, nums.value.1, nums.value.2, preIds.value, buildIds.value))
    else None
  }

  lemma ParseCoreSound(core: string)
    requires ParseCore(core).Some?
    ensures var (ma, mi, pa) := ParseCore(core).value;
      Decimal(ma) + "." + Decimal(mi) + "." + Decimal(pa) == core
  {
    var nums := Split(core, '.');
    JoinSplit(core, '.');
    NumericIdentIsDecimal(nums[0]);
    NumericIdentIsDecimal(nums[1]);
    NumericIdentIsDecimal(nums[2]);
    assert nums == [nums[0], nums[1], nums[2]];
    JoinThree(nums[0], nums[1], nums[2], '.');
  }

  lemma ParsePreReleaseSound(pre: Option<string>)
    requires ParsePreRelease(pre).Some?
    ensures var ids := ParsePreRelease(pre).value;
      && (forall i | 0 <= i < |ids| :: IsPreReleaseIdent(ids[i]))
      && (if ids == [] then "" else "-" + Join(ids, '.')) == (if pre.None? then "" else "-" + pre.value)
  {
    if pre.Some? {
      JoinSplit(pre.value, '.');
    }
  }

  lemma ParseBuildSound(build: Option<string>)
    requires ParseBuild(build).Some?
    ensures var ids := ParseBuild(build).value;
      && (forall i | 0 <= i < |ids| :: IsBuildIdent(ids[i]))
      && (if ids == [] then "" else "+" + Join(ids, '.')) == (if build.None? then "" else "+" + build.value)
  {
    if build.Some? {
      JoinSplit(build.value, '.');
    }
  }

  /** The two cuts split the input into core, optional `-pre` and optional `+build`. */
  lemma CutsRecompose(s: string)
    ensures var (head, build) := CutAt(s, '+');
            var (core, pre) := CutAt(head, '-');
            s == core + (if pre.None? then "" else "-" + pre.value) + (if build.None? then "" else "+" + build.value)
  {
    var (head, build) := CutAt(s, '+');
    CutAtSound(s, '+');
    CutAtSound(head, '-');
  }

  /** Whatever the recogniser accepts is well formed and spells the input back. */
  lemma ParseSound(s: string)
    ensures Parse(s).Some? ==> WellFormed(Parse(s).value) && Render(Parse(s).value) == s
  {
    var (head, build) := CutAt(s, '+');
    var (core, pre) := CutAt(head, '-');
    if Parse(s).Some? {
      CutsRecompose(s);
      ParseCoreSound(core);
      ParsePreReleaseSound(pre);
      ParseBuildSound(build);
    }
  }

  lemma IdentCharsAvoid(s: string, x: char)
    requires IsIdentChars(s) && !IsIdentChar(x)
    ensures x !in s
  {
  }

  lemma DecimalAvoids(n: nat, x: char)
    requires !IsDigit(x)
    ensures x !in Decimal(n)
  {
  }

  lemma ParseCoreComplete(v: Version)
    ensures ParseCore(CoreText(v)) == Some((v.major, v.minor, v.patch))
    ensures '-' !in CoreText(v) && '+' !in CoreText(v)
  {
    var nums := [Decimal(v.major), Decimal(v.minor), Decimal(v.patch)];
    DecimalIsNumericIdent(v.major);
    DecimalIsNumericIdent(v.minor);
    DecimalIsNumericIdent(v.patch);
    DecimalAvoids(v.major, '.'); DecimalAvoids(v.minor, '.'); DecimalAvoids(v.patch, '.');
    DecimalAvoids(v.major, '-'); DecimalAvoids(v.minor, '-'); DecimalAvoids(v.patch, '-');
    DecimalAvoids(v.major, '+'); DecimalAvoids(v.minor, '+'); DecimalAvoids(v.patch, '+');
    JoinThree(nums[0], nums[1], nums[2], '.');
    SplitJoin(nums, '.');
  }

  lemma ParsePreReleaseComplete(ids: seq<string>)
    requires ids != []
    requires forall i | 0 <= i < |ids| :: IsPreReleaseIdent(ids[i])
    ensures ParsePreRelease(Some(Join(ids, '.'))) == Some(ids)
    ensures '+' !in Join(ids, '.')
  {
    forall i | 0 <= i < |ids| ensures '.' !in ids[i] && '+' !in ids[i] {
      IdentCharsAvoid(ids[i], '.');
      IdentCharsAvoid(ids[i], '+');
    }
    SplitJoin(ids, '.');
    JoinAvoids(ids, '.', '+');
  }

  lemma ParseBuildComplete(ids: seq<string>)
    requires ids != []
    requires forall i | 0 <= i < |ids| :: IsBuildIdent(ids[i])
    ensures ParseBuild(Some(Join(ids, '.'))) == Some(ids)
  {
    forall i | 0 <= i < |ids| ensures '.' !in ids[i] {
      IdentCharsAvoid(ids[i], '.');
    }
    SplitJoin(ids, '.');
  }

  /** Every well-formed version is accepted, with exactly its own fields. */
  lemma ParseComplete(v: Version)
    requires WellFormed(v)
    ensures Parse(Render(v)) == Some(v)
  {
    var pre, build := v.preReleaseIdentifiers, v.buildMetadataIdentifiers;
    var core := CoreText(v);
    ParseCoreComplete(v);
    var preOpt: Option<string> := if pre == [] then None else Some(Join(pre, '.'));
    var head := core + PreReleaseText(v);
    if pre != [] {
      ParsePreReleaseComplete(pre);
      assert head == core + ['-'] + preOpt.value;
    } else {
      assert head == core;
    }
    CutAtComplete(core, preOpt, '-');
    assert ParsePreRelease(preOpt) == Some(pre);
    assert '+' !in head;
    var buildOpt: Option<string> := if build == [] then None else Some(Join(build, '.'));
    if build != [] {
      ParseBuildComplete(build);
      assert Render(v) == head + ['+'] + buildOpt.value;
    } else {
      assert Render(v) == head;
    }
    CutAtComplete(head, buildOpt, '+');
    assert ParseBuild(buildOpt) == Some(build);
  }

  /** The recogniser accepts exactly the strings of the grammar. */
  lemma ParseAcceptsExactlyTheGrammar(s: string)
    ensures Parse(s).Some? <==> exists v :: WellFormed(v) && Render(v) == s
  {
    ParseSound(s);
    if exists v :: WellFormed(v) && Render(v) == s {
      var v :| WellFormed(v) && Render(v) == s;
      ParseComplete(v);
    }
  }

  /** The spelling of a version determines it: distinct well-formed versions render differently. */
  lemma RenderInjective(v: Version, w: Version)
    requires WellFormed(v) && WellFormed(w)
    ensures Render(v) == Render(w) <==> v == w
  {
    ParseComplete(v);
    ParseComplete(w);
  }
}
