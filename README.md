# semantic-version in Dafny

A model of the `SemVersion` class of `semantic-version`, a small library that
parses version strings of Semantic Versioning 2.0.0 and compares them by the
precedence rules of section 11 of that standard.

The model has five modules:

- `Wrappers`: `Option` and `Result`.
- `Text`: character classes, decimal numbers, and splitting and joining on a separator.
- `Grammar`: the version grammar.
  - `Parse` is a recogniser that stands in for the class's regular expression.
  - `Render` produces the one string that spells a well-formed `Version`.
  - The lemmas prove that `Parse` accepts exactly the strings `Render` produces, and recovers their fields.
- `Comparison`: precedence.
  - `Precedence` is the recursive definition that `compare` computes.
  - `Precedes` and `SamePrecedence` restate section 11 declaratively.
  - The lemmas prove the two agree, prove the order laws, and prove that a strictly increasing list is the only sorted arrangement of its elements.
- `SemVer`: the class itself.
  - `SemVersion` keeps the string it was built from. Its validity and fields are the parse of that string.
  - `Operand` is the `SemVersion | string` argument type.
  - `Compare` is a method whose pre-release loop (`ComparePreReleaseLoop`) is a `while` loop proved equal to `ComparePreRelease`.
  - The static and instance forms of `gt`, `ge`, `lt`, `le`, `eq` and `compareTo` are also here.
  - A failed comparison (the exception `compare` throws) is a `Failure(InvalidOperand)` result.

`Examples` restates the package's test suite on the concrete strings it uses.

## Model

| member | source | states |
|---|---|---|
| Comparison.Ordering.ToInt | src/semVersion.ts:1-5 | `Lower`, `Equal` and `Greater` map to -1, 0 and 1; the sign of the number identifies the outcome, in both directions |
| Text.DecimalIsNumericIdent | src/semVersion.ts:35-37 | the decimal spelling of any number has no leading zero, and reading it back in base 10 gives the number |
| Text.NumericIdentIsDecimal | src/semVersion.ts:35-37 | a digit string without a leading zero is the decimal spelling of the value `parseInt` reads from it |
| Text.NumericIdentInjective | src/semVersion.ts:80-84 | two numeric identifiers without leading zeros have equal values exactly when they are the same string |
| Text.DigitsValue | src/semVersion.ts:35-37 | `parseInt(s, 10)` on a digit string; no contract of its own: `Text.DecimalIsNumericIdent`, `Text.NumericIdentIsDecimal` and `Text.NumericIdentInjective` state that it inverts `Decimal` on numeric identifiers |
| Text.SplitJoin | src/semVersion.ts:38-39 | splitting a `.`-joined list of `.`-free parts on `.` gives the parts back |
| Text.JoinSplit | src/semVersion.ts:38-39 | joining the pieces of `split('.')` with `.` gives the original string |
| Text.Split | src/semVersion.ts:38-39 | `split('.')`: its ensures give at least one segment, none containing the separator; `Text.JoinSplit` and `Text.SplitJoin` state that it inverts `Join` |
| Text.CutAtSound | src/semVersion.ts:25 | cutting at the first `-` or `+` yields a head free of that character, and head, separator and tail reassemble the input |
| Text.CutAtComplete | src/semVersion.ts:25 | cutting a head that lacks the character, followed by an optional tail, recovers exactly that head and tail |
| Grammar.ParseCoreSound | src/semVersion.ts:35-37 | an accepted core is three numeric identifiers without leading zeros, and it is the decimal text of the three numbers read from it |
| Grammar.ParsePreReleaseSound | src/semVersion.ts:38 | accepted pre-release identifiers are each numeric without a leading zero, or alphanumeric, and they join back to the matched text |
| Grammar.ParseBuildSound | src/semVersion.ts:39 | accepted build identifiers are non-empty strings of `[0-9A-Za-z-]` that join back to the matched text |
| Grammar.ParseSound | src/semVersion.ts:25-40 | every accepted string yields well-formed fields that spell the string exactly |
| Grammar.ParseComplete | src/semVersion.ts:25-40 | every well-formed version's text is accepted and yields exactly that version's fields |
| Grammar.ParseAcceptsExactlyTheGrammar | src/semVersion.ts:25 | a string is valid if and only if it spells some well-formed version |
| Grammar.RenderInjective | src/semVersion.ts:25-40 | distinct well-formed versions have distinct texts, so the fields of a valid string are unique |
| Grammar.Parse | src/semVersion.ts:25-40 | the match of the regular expression and the extraction of the five fields; no contract of its own: `Grammar.ParseSound`, `Grammar.ParseComplete` and `Grammar.ParseAcceptsExactlyTheGrammar` state it |
| SemVer.New | src/semVersion.ts:27-40 | the constructor keeps the string; the version is valid exactly when the string is in the grammar; a valid version's fields are well-formed and spell the string |
| SemVer.SemVersion.Fields | src/semVersion.ts:29-39 | the fields of an instance, `None` when `isValid` is false; no contract of its own: `SemVer.New` states that they are well formed and spell the string exactly when the string is in the grammar |
| SemVer.SemVersion.IsValid | src/semVersion.ts:30 | `isValid`; no contract of its own: `SemVer.New` states that it holds exactly when the string spells some well-formed version |
| SemVer.Resolve | src/semVersion.ts:51-52 | a string operand is constructed into a `SemVersion`, an instance is used as is; no contract of its own: `SemVer.Compare` states the result over the resolved fields |
| SemVer.Compared | src/semVersion.ts:50-98 | the outcome of `compare` as a function; no contract of its own: `SemVer.Compare` is proved equal to it, and `SemVer.ComparedMatchesSection11` states its meaning |
| SemVer.Compare | src/semVersion.ts:50-98 | fails exactly when an operand is invalid; otherwise returns `Lower`, `Equal` or `Greater` exactly when section 11 puts the first operand first, ties them, or puts the second first |
| SemVer.ComparePreReleaseLoop | src/semVersion.ts:68-96 | the position-by-position loop returns the ordering of the recursive pre-release comparison |
| SemVer.ComparedMatchesSection11 | src/semVersion.ts:50-98 | on two valid operands, each outcome of `compare` holds exactly when the matching relation of section 11 holds |
| SemVer.Gt | src/semVersion.ts:105-107 | fails exactly on an invalid operand; otherwise true exactly when the second version precedes the first |
| SemVer.Ge | src/semVersion.ts:114-116 | fails exactly on an invalid operand; otherwise true exactly when the first version does not precede the second |
| SemVer.Lt | src/semVersion.ts:123-125 | fails exactly on an invalid operand; otherwise true exactly when the first version precedes the second |
| SemVer.Le | src/semVersion.ts:132-134 | fails exactly on an invalid operand; otherwise true exactly when the second version does not precede the first |
| SemVer.Eq | src/semVersion.ts:141-143 | fails exactly on an invalid operand; otherwise true exactly when the two versions have the same precedence |
| SemVer.SemVersion.CompareTo | src/semVersion.ts:152-154 | the static comparison with `this` first: fails exactly on an invalid side; otherwise the outcome agrees with section 11 in all three cases |
| SemVer.SemVersion.Gt | src/semVersion.ts:160-162 | fails exactly on an invalid side; otherwise true exactly when `comparison` precedes `this` |
| SemVer.SemVersion.Ge | src/semVersion.ts:168-170 | fails exactly on an invalid side; otherwise true exactly when `this` does not precede `comparison` |
| SemVer.SemVersion.Lt | src/semVersion.ts:176-178 | fails exactly on an invalid side; otherwise true exactly when `this` precedes `comparison` |
| SemVer.SemVersion.Le | src/semVersion.ts:184-186 | fails exactly on an invalid side; otherwise true exactly when `comparison` does not precede `this` |
| SemVer.SemVersion.Eq | src/semVersion.ts:192-194 | fails exactly on an invalid side; otherwise true exactly when both have the same precedence |
| SemVer.SemVersion.ToString | src/semVersion.ts:196-198 | `toString`; no contract of its own: the first ensures of `SemVer.New` states that it returns the constructor's string for every input |
| SemVer.ToStringIsSource | src/semVersion.ts:196-198 | constructing a version from what `toString` returns gives back the same version |
| SemVer.CompareReflexive | src/semVersion.ts:50-98 | a valid operand compares `Equal` to itself |
| SemVer.CompareAntisymmetric | src/semVersion.ts:50-98 | swapping the operands flips the outcome, and an invalid operand fails in either order |
| SemVer.CompareTransitive | src/semVersion.ts:50-98 | "not greater" and "lower" chain across three valid operands |
| Comparison.IdentifierLowerIffPrecedes | src/semVersion.ts:73-91 | one loop position yields `Lower` exactly when identifier precedence (numeric by value, alphanumeric as strings, numeric below alphanumeric) puts the first identifier first |
| Comparison.CompareIdentifiers | src/semVersion.ts:73-91 | one position of the pre-release loop; no contract of its own: `Comparison.IdentifierLowerIffPrecedes` and `Comparison.IdentifierTransitive` state it |
| Comparison.LexLess | src/semVersion.ts:87 | the string `<` of two alphanumeric identifiers; no contract of its own: `Comparison.LexIrreflexive`, `Comparison.LexTrichotomy` and `Comparison.LexTransitive` make it a strict total order |
| Comparison.LexIrreflexive | src/semVersion.ts:86-87 | no string is below itself under `<` |
| Comparison.LexTrichotomy | src/semVersion.ts:86-87 | of two different strings exactly one is below the other under `<` |
| Comparison.LexTransitive | src/semVersion.ts:86-87 | `<` on strings is transitive |
| Comparison.IdentifierFlip | src/semVersion.ts:73-91 | swapping two identifiers flips the outcome of one loop position |
| Comparison.IdentifierEqual | src/semVersion.ts:73-91 | two valid pre-release identifiers compare `Equal` exactly when they are the same string |
| Comparison.IdentifierTransitive | src/semVersion.ts:73-91 | "lower" and "not greater" between identifiers chain across three identifiers |
| Comparison.PreReleaseLowerIffPrecedes | src/semVersion.ts:68-96 | the pre-release comparison yields `Lower` exactly when the first differing identifier ranks lower, or when the first list is a proper prefix of the second |
| Comparison.ComparePreRelease | src/semVersion.ts:68-96 | the pre-release loop as a recursive function; no contract of its own: `SemVer.ComparePreReleaseLoop` is proved equal to it and `Comparison.PreReleaseLowerIffPrecedes` states its meaning |
| Comparison.PrecedenceMatchesSection11 | src/semVersion.ts:56-97 | on well-formed versions, `Lower`, `Equal` and `Greater` hold exactly when `v` precedes `w`, when they agree on everything but build metadata, and when `w` precedes `v` |
| Comparison.Precedence | src/semVersion.ts:56-97 | the comparison of two sets of fields; no contract of its own: `Comparison.PrecedenceMatchesSection11` and the order laws below state it |
| Comparison.PrecedenceReflexive | src/semVersion.ts:56-97 | every version has `Equal` precedence with itself |
| Comparison.PrecedenceAntisymmetric | src/semVersion.ts:56-97 | swapping the versions flips the outcome |
| Comparison.PrecedenceTransitive | src/semVersion.ts:56-97 | `Lower`, "not greater" and `Equal` each chain across three versions |
| Comparison.PrecedenceIgnoresBuild | src/semVersion.ts:56-97 | replacing either side's build metadata leaves the outcome unchanged |
| Comparison.PrecedesIsStrictTotalOrder | src/semVersion.ts:56-97 | on valid versions, section 11 is irreflexive, asymmetric and transitive, and any two versions are ordered or of the same precedence |
| Comparison.SortedArrangementIsUnique | src/semVersion.test.ts:35-40 | sorting any permutation of a strictly increasing list by `compare` yields that list |
| Examples.ParsesSimpleVersion | src/semVersion.test.ts:7-13 | `1.2.3` is valid, with major 1, minor 2 and patch 3 |
| Examples.RejectsLetterInCore | src/semVersion.test.ts:15-18 | `1.a.3` is invalid |
| Examples.ParsesLongVersion | src/semVersion.test.ts:20-28 | `1.0.0-beta+exp.sha.5114f85` is valid with pre-release `[beta]` and build metadata `[exp, sha, 5114f85]` |
| Examples.OrderedStrVersionsParse | src/semVersion.test.ts:30-33 | each of the eight listed strings is valid and has the listed fields |
| Examples.OrderedVersionsIncrease | src/semVersion.test.ts:4 | each listed version ranks strictly below the next |
| Examples.SortingReversedListRestoresOrder | src/semVersion.test.ts:35-40 | any sorted arrangement of the reversed list is the original list |
| Examples.ListedVersionsEqualThemselves | src/semVersion.test.ts:42-45 | each listed version, once constructed, compares `Equal` to itself |
| Examples.PlainCoreNeedsThreeNumbers | src/semVersion.ts:25 | text without `-` or `+` is accepted only as exactly three numeric identifiers without leading zeros |
| Examples.RejectsLeadingZero | src/semVersion.ts:25 | `01.2.3` is invalid |
| Examples.RejectsMissingPatch | src/semVersion.ts:25 | `1.2` is invalid |
| Examples.CompareIgnoresBuildExample | src/semVersion.ts:56-97 | `1.0.0+build1` and `1.0.0+build2` compare `Equal` |
| Examples.ComparePreReleaseBelowRelease | src/semVersion.ts:65-66 | `1.0.0-alpha` compares `Lower` than `1.0.0` |
| Examples.CompareNumericBelowAlphanumeric | src/semVersion.ts:89-90 | `1.0.0-1` compares `Lower` than `1.0.0-alpha` |
| Examples.ComparePrefixBelowLonger | src/semVersion.ts:93-95 | `1.0.0-alpha` compares `Lower` than `1.0.0-alpha.1` |
| Examples.CompareInvalidFails | src/semVersion.ts:53-55 | comparing with `1.a.3` fails instead of giving an ordering |

## Left out

- Numbers are unbounded `nat`s. JavaScript's `parseInt` yields a double, so above 2^53 distinct major, minor, patch or numeric identifiers can read as equal. The model does not reproduce that rounding.
- String `<` is modelled as `LexLess` over characters. JavaScript compares UTF-16 code units. The grammar admits only ASCII identifiers, so the two agree on every string that reaches the comparison.
- The regular expression engine is not modelled. `Grammar.Parse` is a hand-written recogniser, proved sound and complete against `Grammar.Render`.
- The `typeof version === 'string'` test is replaced by the `Operand` sum type, `AlreadyParsed | RawText`.
- The thrown `Error` is modelled as a `Failure(InvalidOperand)` result. The error message text is not modelled.
- `SemVersion` holds only `strVersion`. `isValid` and the five fields are derived from it through `Fields()` and are not stored. The class never changes them after construction, so nothing is lost. The model does not distinguish the `undefined` fields of an invalid instance.
- The pre-release loop of `compare` is a separate method, `ComparePreReleaseLoop`, called once the core fields and pre-release presence are equal.
- The tests' `Array.prototype.sort` is not executed. The test is stated as a property instead: every sorted permutation of the list equals the list.
- The mocha/chai test runner and the webpack build are not part of this model.
