# HgVersion, modelled in Dafny

HgVersion computes the semantic version of a Mercurial working copy from its branches,
tags and merge history, in the manner of GitVersion. This project models the core of
that computation and proves properties of the model:

- **Semantic versions** (`semantic_version.dfy`, `prerelease_tag.dfy`, `build_metadata.dfy`):
  parsing behind a tag prefix, the format strings (`j`, `s`, `f`, `i`, `t`, `b`, `p4`, ...),
  comparison, the equality comparer and hash codes; parse/format round trips and the
  ordering laws.
- **Version calculation** (`increment.dfy`, `base_version.dfy`, `base_version_calculator.dfy`,
  `next_version.dfy`): increment strategies, the base-version candidates of the strategies,
  the choice of the greatest incremented candidate and of the commit it counts from, and
  the next version with its pre-release tag and build metadata.
- **Output** (`assembly_versioning.dfy`, `version_variables.dfy`): the four-part assembly
  versions per scheme and every output variable of `VersionVariablesBuilder`.
- **Configuration** (`configuration.dfy`, `configuration_properties.dfy`, `tag_prefix.dfy`):
  the `Config` object that `ApplyDefaultsTo` and `ApplyOverridesTo` change in place, written as
  a class whose methods are proved against functions over the branch dictionary; the
  defaults of the known branches, the validation of user branches and the
  `IsSourceBranchFor` pass.
- **Branch configuration** (`branch_configuration.dfy`): resolution of an Inherit branch
  configuration through merge parents, branch points and the develop/default fallback,
  with the shared exclusion list as a class.
- **Repository access** (`repository.dfy`, `metadata_provider.dfy`, `branch_head.dfy`,
  `named_commit.dfy`, `merge_message.dfy`): an abstract repository, the metadata provider
  with its two caches, branch-head equality, the lazily resolved named commit, and the
  reading of merge messages.
- **Version context** (`version_context.dfy`): both layouts of `HgVersionContext`, with the
  checks of required settings, the effective configuration and the highest version among
  the current commit's tags.

Shared helpers are in `wrappers.dfy` (Option, Result, exceptions as error values),
`text.dfy` (ASCII digits, decimal text, case folding, ordinal comparison, `int.TryParse`),
`sequences.dfy` (LINQ `Where`, `SelectMany`, `Except`, `First`) and `hashing.dfy`
(unchecked 32-bit hash arithmetic).

Three behaviours of the code that its names and comments do not suggest:

- the None increment strategy still counts up a numbered pre-release tag
  (`BaseVersions.NoBumpStillCountsUpNumberedTag`) instead of copying the base version;
- `FindMergeBase` queries with the branch name twice, so its result does not depend on the
  other branch (`MetadataProviders.MergeBaseIgnoresOther`);
- the cache of `GetVersionTagsOnBranch` is keyed by branch alone, so a second call with
  another tag prefix returns the first call's list (`MetadataProviders.TagsTwice`).

## Model

| member | source | states |
|---|---|---|
| PreReleaseTags.OperatorEqualsIsValueEquality | SemanticVersions/PreReleaseTag.cs:115-139 | `==` on tags holds exactly when both are null or both have ordinal-equal names and equal numbers |
| PreReleaseTags.EqualsImpliesEqualHashCode | SemanticVersions/PreReleaseTag.cs:123-129 | equal tags have equal hash codes |
| PreReleaseTags.TrailingDigitCount | SemanticVersions/PreReleaseTag.cs:12 | the count is the longest run of digits at the end of the text |
| PreReleaseTags.SplitTag | SemanticVersions/PreReleaseTag.cs:12 | the lazy name group is the shortest prefix after which an optional '.' and the trailing digits reach the end; the digits are that run |
| PreReleaseTags.SplitTagMinimal | SemanticVersions/PreReleaseTag.cs:12 | no shorter prefix than the computed name lets the rest of the pattern match |
| PreReleaseTags.LastLine | SemanticVersions/PreReleaseTag.cs:181 | an unanchored match ending at `$` starts after the last '\n'; a text without '\n' is kept whole |
| PreReleaseTags.Parse | SemanticVersions/PreReleaseTag.cs:176-194 | null or empty gives the null tag; otherwise the name is set, and on one line it is the split name and number, or the whole input with no number when the name ends in '-' |
| PreReleaseTags.ToString | SemanticVersions/PreReleaseTag.cs:86-104 | succeeds exactly for a null, empty or "t" format, with `name.number` or `name`; any other format is an ArgumentException |
| PreReleaseTags.CompareToIsSign | SemanticVersions/PreReleaseTag.cs:61-74 | the comparison is -1, 0 or 1 |
| PreReleaseTags.CompareToNullOrder | SemanticVersions/PreReleaseTag.cs:63-67 | a non-null tag is above a null one |
| PreReleaseTags.CompareToZero | SemanticVersions/PreReleaseTag.cs:61-74 | zero exactly for equal nullness, names equal ignoring case and equal numbers |
| PreReleaseTags.CompareToAntisymmetric | SemanticVersions/PreReleaseTag.cs:61-74 | swapping the arguments negates the result |
| PreReleaseTags.CompareToTransitive | SemanticVersions/PreReleaseTag.cs:61-74 | "not above" is transitive |
| PreReleaseTags.CaseOnlyDifference | SemanticVersions/PreReleaseTag.cs:69-73 | "Beta" and "beta" with the same number compare 0 but are neither `Equals` nor `==` |
| PreReleaseTags.LessOrEqualWeakerThanCompareTo | SemanticVersions/PreReleaseTag.cs:156-159 | whenever `CompareTo` is at most 0, `<=` holds |
| PreReleaseTags.LessOrEqualIgnoresNumber | SemanticVersions/PreReleaseTag.cs:156-159 | beta.2 `<=` beta.1 holds although beta.2 compares above beta.1 |
| PreReleaseTags.ParseExampleBeta4 | SemanticVersions/PreReleaseTag.cs:181-193 | "beta4" parses to name "beta", number 4 |
| PreReleaseTags.ParseExampleBetaDot4 | SemanticVersions/PreReleaseTag.cs:181-193 | "beta.4" parses to name "beta", number 4 |
| PreReleaseTags.ParseExampleRc12 | SemanticVersions/PreReleaseTag.cs:181-193 | "rc1.2" parses to name "rc1", number 2 |
| PreReleaseTags.ParseAllDigits | SemanticVersions/PreReleaseTag.cs:185-193 | an all-digit text gives name "" and its value as number, a null tag |
| PreReleaseTags.ParseExampleDash | SemanticVersions/PreReleaseTag.cs:190-191 | "alpha-.3" becomes the whole name with no number |
| PreReleaseTags.TagTextRoundTrip | SemanticVersions/PreReleaseTag.cs:86-104 | a tag whose name is non-empty, on one line, does not end in '-', and (without a number) does not end in '.' or a digit parses back from its "t" text |
| PreReleaseTags.SplitTagOfNameOnly | SemanticVersions/PreReleaseTag.cs:12 | a name ending in neither '.' nor a digit splits as itself with no digits |
| PreReleaseTags.SplitTagOfDigits | SemanticVersions/PreReleaseTag.cs:12 | an all-digit text splits into an empty name and those digits |
| PreReleaseTags.SplitTagOfNumbered | SemanticVersions/PreReleaseTag.cs:12 | `name.digits` splits into the name and the digits |
| PreReleaseTags.SplitTagOfUndotted | SemanticVersions/PreReleaseTag.cs:12 | `namedigits` splits into the name and the digits when the name ends in neither '.' nor a digit |
| BuildMetadatas.CreateSetsCommitsSinceVersionSource | SemanticVersions/BuildMetadata.cs:36-44 | the field constructor stores every argument and sets the version-source count to the count or 0 |
| BuildMetadatas.CopyResetsCommitsSinceVersionSource | SemanticVersions/BuildMetadata.cs:50-57 | a copy equals the original but its version-source count is 0 |
| BuildMetadatas.EqualsIgnoresDateAndOther | SemanticVersions/BuildMetadata.cs:67-74 | equality ignores the date, the other metadata and the version-source count |
| BuildMetadatas.EqualsImpliesEqualHashCode | SemanticVersions/BuildMetadata.cs:86-95 | equal metadata have equal hash codes |
| BuildMetadatas.FormatKeyOfLiteral | SemanticVersions/BuildMetadata.cs:111-114 | a null format means "b"; the literal formats are kept |
| BuildMetadatas.PrivateToString | SemanticVersions/BuildMetadata.cs:136-157 | fails with "Unrecognised format" exactly for a format other than b, s, f; gives null exactly for "b" without a count |
| BuildMetadatas.ToStringDefault | SemanticVersions/BuildMetadata.cs:59-63 | the parameterless form is null without a count, else the decimal digits of the count |
| BuildMetadatas.PublicToString | SemanticVersions/BuildMetadata.cs:103-134 | a null text only comes from a missing count |
| BuildMetadatas.PublicToStringAgreement | SemanticVersions/BuildMetadata.cs:103-134 | the corrected formatter agrees with the code as written wherever that does not throw a NullReferenceException, and gives null exactly where it does |
| BuildMetadatas.PublicToStringAsWrittenThrows | SemanticVersions/BuildMetadata.cs:132-133 | as written, "b" or a null format without a count throws a NullReferenceException; the corrected formatter gives null |
| BuildMetadatas.FullFormat | SemanticVersions/BuildMetadata.cs:148-153 | "f" is the count, `.Branch.x`, `.Sha.y`, `.other`, leading dots trimmed |
| BuildMetadatas.PaddedFormat | SemanticVersions/BuildMetadata.cs:115-129 | "pN" gives the count's decimal digits, their value the count, at least N of them; when N does not fit in an `int` the parse fails and at least four |
| BuildMetadatas.PositivePaddingValue | SemanticVersions/BuildMetadata.cs:118-126 | the padding of "pN" is N when N fits in an `int`, else the default 4 |
| BuildMetadatas.NegativeFormatKey | SemanticVersions/BuildMetadata.cs:111-114 | a lower-case "p-N" format is kept as it is |
| Text.TryParseInt | SemanticVersions/BuildMetadata.cs:122-123 | `int.TryParse` fails on an empty text and on any value outside the 32-bit range; a run of digits gives its value exactly when that is at most `int.MaxValue` |
| Text.CustomFormatOnePlaceholder | SemanticVersions/BuildMetadata.cs:129 | a custom format with one '0' placeholder puts the count's digits in its place and copies the other characters |
| Text.CustomFormatWithoutPlaceholders | SemanticVersions/BuildMetadata.cs:129 | a custom format without '0' is copied as it is, whatever the count |
| BuildMetadatas.ParseNegative | SemanticVersions/BuildMetadata.cs:122-123 | `int.TryParse` of "-N" gives minus N when that is at least `int.MinValue`, and fails beyond it |
| BuildMetadatas.NegativePaddingValue | SemanticVersions/BuildMetadata.cs:118-126 | the padding of "p-N" is -N when that fits in an `int`, else the default 4 |
| BuildMetadatas.NegativePadding | SemanticVersions/BuildMetadata.cs:115-129 | "p-N" with a count applies the custom format "D-N", whose '0' digits are filled with the count's digits and whose other characters are copied; when -N does not fit in an `int` the count is padded to four digits |
| BuildMetadatas.NegativePaddingWithoutZero | SemanticVersions/BuildMetadata.cs:115-129 | a "p-N" whose N has no '0' digit gives the text "D-N" whatever the count |
| BuildMetadatas.NegativePaddingTen | SemanticVersions/BuildMetadata.cs:115-129 | "p-10" gives "D-1" followed by the count's digits |
| BuildMetadatas.NegativePaddingTenFive | SemanticVersions/BuildMetadata.cs:115-129 | "p-10" with the count 5 gives "D-15" |
| BuildMetadatas.NegativePaddingHundred | SemanticVersions/BuildMetadata.cs:115-129 | "p-100" with the count 7 gives "D-107": the two placeholders take the zero-padded "07" |
| BuildMetadatas.FourDigitFormat | SemanticVersions/BuildMetadata.cs:115-130 | "p4" is empty without a count, else at least four digits of the count |
| BuildMetadatas.DefaultPadding | SemanticVersions/BuildMetadata.cs:118 | a bare "p" pads to four digits |
| BuildMetadatas.PaddedFormatWithoutCount | SemanticVersions/BuildMetadata.cs:129 | any "p" format without a count is the empty text |
| BuildMetadatas.DotRunMeans | SemanticVersions/BuildMetadata.cs:14-16 | `\.(?<x>[^\.]+)` matches exactly at a dot followed by a non-dot, and captures the longest run free of dots after it |
| BuildMetadatas.BranchSegment | SemanticVersions/BuildMetadata.cs:14-15 | a found branch segment ends inside the text, after where it starts |
| BuildMetadatas.BranchSegmentMeans | SemanticVersions/BuildMetadata.cs:14-15 | the branch group is present exactly when, after an optional dot, "branch" (ignoring case) is followed by a dot run, or by "name" and a dot run; its value is the run after "name" when that is there, else the run after "branch" |
| BuildMetadatas.ShaSegment | SemanticVersions/BuildMetadata.cs:16 | a found sha segment ends inside the text, after where it starts |
| BuildMetadatas.ShaSegmentMeans | SemanticVersions/BuildMetadata.cs:16 | the sha group is present exactly when, after an optional dot, "sh" (ignoring case) is followed by a dot run, or by "a" and a dot run; its value is the run after the "a" when that is there, else the run after "sh" |
| BuildMetadatas.FirstLine | SemanticVersions/BuildMetadata.cs:17 | `.*` stops at the first '\n': a prefix without '\n' |
| BuildMetadatas.Parse | SemanticVersions/BuildMetadata.cs:179-205 | null or empty gives the default value; every parsed value has the minimum date and a version-source count equal to the count or 0 |
| BuildMetadatas.ParseNullOrEmpty | SemanticVersions/BuildMetadata.cs:187-188 | null and "" parse to metadata with every field absent |
| BuildMetadataRoundTrip.MatchGroups | SemanticVersions/BuildMetadata.cs:11-18 | the pattern applied to the trimmed "f" text of invertible metadata captures its count, branch and sha |
| BuildMetadataRoundTrip.FullFormatRoundTrip | SemanticVersions/BuildMetadata.cs:148-153 | parsing the "f" text of metadata with dot-free non-empty branch and sha gives equal metadata |
| BuildMetadataRoundTrip.FullTextRoundTrip | SemanticVersions/BuildMetadata.cs:179-205 | parsing the private "f" text with its leading dots trimmed gives equal metadata |
| SemanticVersions.ComparerEquals | SemanticVersions/SemanticVersionComarer.cs:25-47 | a null second argument is false; it fails exactly for a null receiver (NullReferenceException) or an undefined mode (InvalidOperationException naming it); true implies equal major, minor and patch, and in Full mode also equal tags and metadata |
| SemanticVersions.SameObjectShortcutIsSound | SemanticVersions/SemanticVersionComarer.cs:27-28 | the same-reference shortcut answers true, as the field comparison does |
| SemanticVersions.FullImpliesMajorMinorPatch | SemanticVersions/SemanticVersionComarer.cs:32-42 | Full equality implies MajorMinorPatch equality |
| SemanticVersions.FullEqualSymmetric | SemanticVersions/SemanticVersionComarer.cs:37-42 | Full equality is symmetric |
| SemanticVersions.EqualImpliesEqualHashCode | SemanticVersions/SemanticVersionComarer.cs:49-65 | versions equal under a mode have equal hash codes under that mode |
| SemanticVersions.Equals | SemanticVersions/SemanticVersion.cs:300-305 | the default comparer's answer: true exactly for a non-null Full-equal argument |
| SemanticVersions.IsEmptyMeans | SemanticVersions/SemanticVersion.cs:102-105 | empty exactly for 0.0.0 with a null tag and metadata with no count, branch or sha |
| SemanticVersions.OperatorEqualsSymmetric | SemanticVersions/SemanticVersion.cs:107-118 | `==` (null equals only null) is symmetric |
| SemanticVersions.CompareTo | SemanticVersions/SemanticVersion.cs:210-250 | the comparison is -1, 0 or 1 |
| SemanticVersions.CompareToZero | SemanticVersions/SemanticVersion.cs:217-249 | zero exactly for the same numbers and the same tag; the metadata plays no part |
| SemanticVersions.CompareToNumbers | SemanticVersions/SemanticVersion.cs:217-239 | with different numbers the order is lexicographic on major, minor, patch |
| SemanticVersions.CompareToTags | SemanticVersions/SemanticVersion.cs:241-247 | with equal numbers, tags the tag order tells apart decide by that order |
| SemanticVersions.CompareToAntisymmetric | SemanticVersions/SemanticVersion.cs:210-250 | swapping the arguments negates the result unless the tags differ only in case |
| SemanticVersions.NotAboveMeans | SemanticVersions/SemanticVersion.cs:210-250 | "not above" is smaller numbers, or the same numbers and a tag not above |
| SemanticVersions.CompareToAsymmetric | SemanticVersions/SemanticVersion.cs:210-250 | above one way means below the other way |
| SemanticVersions.CompareToTransitive | SemanticVersions/SemanticVersion.cs:210-250 | "not above" is transitive |
| SemanticVersions.CompareToCaseOnlyTags | SemanticVersions/SemanticVersion.cs:241-247 | 1.0.0-Beta and 1.0.0-beta each compare below the other |
| SemanticVersions.Operator | SemanticVersions/SemanticVersion.cs:120-156 | a null left or right operand throws ArgumentNullException naming it; otherwise a value |
| SemanticVersions.GreaterIsConverseOfLess | SemanticVersions/SemanticVersion.cs:120-156 | `a > b` equals `b < a` unless the tags differ only in case |
| SemanticVersions.ToString | SemanticVersions/SemanticVersion.cs:265-297 | fails with "Unrecognised format" exactly for a non-empty format other than j, s, t, f, i; every text starts with `M.m.p`, and every format but "j" starts with the tagged text |
| SemanticVersions.InformationalFormatText | SemanticVersions/SemanticVersion.cs:289-293 | "i" is the tagged text, then '+' and the trimmed "f" text of the metadata when that is non-empty |
| SemanticVersions.DotNumber | SemanticVersions/SemanticVersion.cs:16 | `\.\d+` found at a position ends after a '.' and a digit run |
| SemanticVersions.OptionalNumber | SemanticVersions/SemanticVersion.cs:17-18 | the optional `.digits` group captures exactly the digits it covers |
| SemanticVersions.OptionalTag | SemanticVersions/SemanticVersion.cs:19 | the optional tag group starts at '-', holds no '+', and stops only at '+' or the end |
| SemanticVersions.OptionalMeta | SemanticVersions/SemanticVersion.cs:20 | the metadata group is present exactly after a '+' and takes the rest |
| SemanticVersions.MatchVersionSound | SemanticVersions/SemanticVersion.cs:12-21 | a match covers the whole line, minor is mandatory and a fourth part only follows a patch |
| SemanticVersions.LineBody | SemanticVersions/SemanticVersion.cs:168 | `.*$` captures the line without a final '\n' |
| SemanticVersions.StripPrefix | SemanticVersions/SemanticVersion.cs:168-176 | the remainder has no '\n'; with no prefix it exists exactly for a single line and is that line |
| SemanticVersions.FromGroups | SemanticVersions/SemanticVersion.cs:185-204 | numbers from the groups, an absent patch is 0, the tag and metadata are parsed, and the fourth part becomes the count only when the metadata has none |
| SemanticVersions.Parse | SemanticVersions/SemanticVersion.cs:158-164 | succeeds exactly when `TryParse` does, with its value; otherwise throws "Failed to parse ... into a Semantic Version" |
| SemanticVersionRoundTrip.MatchVersionComplete | SemanticVersions/SemanticVersion.cs:12-21 | the pattern is unambiguous: the text of any groups it can produce matches back to those groups |
| SemanticVersionRoundTrip.InformationalRoundTrip | SemanticVersions/SemanticVersion.cs:166-207 | the "i" text of a version with an invertible tag and metadata parses, with no prefix, to a Full-equal version |
| SemanticVersionRoundTrip.InformationalParses | SemanticVersions/SemanticVersion.cs:166-207 | the "i" text is the text of the informational groups, and parsing it gives the version those groups describe |
| SemanticVersionRoundTrip.InformationalGroupsDescribe | SemanticVersions/SemanticVersion.cs:185-204 | the version the informational groups describe is Full-equal to the original |
| Increments.IncrementPreReleaseTag | VersionCalculation/IncrementStrategy.cs:22-37 | the numbers and the tag name are kept; a numbered tag counts up by one with the metadata kept, an unnumbered tag gives a Full-equal copy |
| Increments.IncrementField | VersionCalculation/IncrementStrategy.cs:39-72 | None gives a Full-equal copy; Major, Minor and Patch bump their field, reset the lower ones and keep the tag and metadata; any other value is an ArgumentException |
| Increments.IncrementStrategy.IncrementVersion | VersionCalculation/IncrementStrategy.cs:15-20 | a non-null tag takes the pre-release path, a null tag the configured field; it fails only for a null tag and an undefined field |
| Increments.TaggedVersionIgnoresField | VersionCalculation/IncrementStrategy.cs:17-19 | with a non-null tag the configured field makes no difference |
| Increments.NumberedTagCountsUp | VersionCalculation/IncrementStrategy.cs:24-33 | a numbered tag only gets its number increased |
| Increments.IncrementNeverDecreases | VersionCalculation/IncrementStrategy.cs:15-72 | the result never compares below the input |
| Increments.FieldBumpIncreases | VersionCalculation/IncrementStrategy.cs:46-68 | a field bump of an untagged version compares strictly above it |
| BaseVersions.FullText | VersionCalculation/BaseVersionCalculation/BaseVersion.cs:45 | the "f" text of the version, which never fails |
| BaseVersions.ToString | VersionCalculation/BaseVersionCalculation/BaseVersion.cs:43-48 | starts with the type, ": " and the "f" text, and ends with the source text and the flag |
| BaseVersions.FlagSuffix | VersionCalculation/BaseVersionCalculation/BaseVersion.cs:47 | the two flag texts are told apart by their ending |
| BaseVersions.ToStringShowsFlag | VersionCalculation/BaseVersionCalculation/BaseVersion.cs:43-48 | the text ends in " (Should increment)" exactly when the version should be incremented |
| BaseVersions.GetStrategy | VersionCalculation/IncrementStrategyFactory.cs:7-10 | always the Patch strategy, whatever the context |
| BaseVersions.GetStrategyFor | VersionCalculation/IncrementStrategyFactory.cs:12-18 | the Patch strategy when the base version should be incremented, else None |
| BaseVersions.NoBumpStrategyCopies | VersionCalculation/IncrementStrategyFactory.cs:12-18 | without increment, a version with a null or unnumbered tag comes back Full-equal |
| BaseVersions.NoBumpStillCountsUpNumberedTag | VersionCalculation/IncrementStrategy.cs:15-34 | the None strategy still counts up a numbered tag: 1.0.0-beta.1 becomes 1.0.0-beta.2 |
| BaseVersions.MaybeIncrement | VersionCalculation/BaseVersionCalculation/BaseVersionExtensions.cs:16-21 | the selected strategy's increment of the version; an incremented untagged version is Patch+1, a numbered tag counts up, and a non-incremented version without a number is Full-equal |
| BaseVersions.GetRootCommit | VersionCalculation/BaseVersionCalculation/FallbackBaseVersionStrategy.cs:27-44 | the root is the single commit "ancestors of tip, limit 1" gives; any other count throws a BaseVersionException naming the tip |
| BaseVersions.FallbackVersions | VersionCalculation/BaseVersionCalculation/FallbackBaseVersionStrategy.cs:17-25 | exactly one candidate, "Fallback base version" 0.1.0 from the root commit, not incremented; the root-commit error otherwise |
| BaseVersions.FallbackIsNotIncremented | VersionCalculation/BaseVersionCalculation/FallbackBaseVersionStrategy.cs:22-24 | the fallback candidate's incremented version is still 0.1.0 with a null tag |
| BaseVersionCalculators.AllVersions | VersionCalculation/BaseVersionCalculation/BaseVersionCalculator.cs:37-38 | succeeds exactly when every strategy does; an error is some strategy's error |
| BaseVersionCalculators.AllVersionsAppend | VersionCalculation/BaseVersionCalculation/BaseVersionCalculator.cs:37-38 | the candidates of two strategy lists are the concatenation of their candidates |
| BaseVersionCalculators.Pair | VersionCalculation/BaseVersionCalculation/BaseVersionCalculator.cs:39 | each base version is paired, in order, with its incremented version |
| BaseVersionCalculators.GetBaseVersionsByStrategies | VersionCalculation/BaseVersionCalculation/BaseVersionCalculator.cs:35-41 | every strategy's versions in strategy order, each with its incremented version |
| BaseVersionCalculators.MaxIndex | VersionCalculation/BaseVersionCalculation/BaseVersionCalculator.cs:45-46 | the fold's winner is strictly above every later candidate, so among ties the later one wins |
| BaseVersionCalculators.MaxIsGreatest | VersionCalculation/BaseVersionCalculation/BaseVersionCalculator.cs:45-46 | no candidate is above the fold's winner |
| BaseVersionCalculators.OldestIndex | VersionCalculation/BaseVersionCalculation/BaseVersionCalculator.cs:56-57 | the chosen source has the smallest timestamp, and is strictly older than every later candidate |
| BaseVersionCalculators.FirstInOrder | VersionCalculation/BaseVersionCalculation/BaseVersionCalculator.cs:62-66 | the scan of the descending version-then-timestamp order keeps a candidate that no later candidate precedes |
| BaseVersionCalculators.PrecedesStrictWeak | VersionCalculation/BaseVersionCalculation/BaseVersionCalculator.cs:64-65 | without case-only tags the descending order is asymmetric and negatively transitive, a strict weak order |
| BaseVersionCalculators.FirstInOrderIsFirst | VersionCalculation/BaseVersionCalculation/BaseVersionCalculator.cs:62-66 | without case-only tags the scan's choice precedes every earlier candidate, so it is the first of the sorted sequence |
| BaseVersionCalculators.Matching | VersionCalculation/BaseVersionCalculation/BaseVersionCalculator.cs:48-52 | the candidates with a source whose incremented version is `==` to the maximum's |
| BaseVersionCalculators.WithSource | VersionCalculation/BaseVersionCalculation/BaseVersionCalculator.cs:63 | the candidates with a source |
| BaseVersionCalculators.GetResultBaseVersion | VersionCalculation/BaseVersionCalculation/BaseVersionCalculator.cs:71-78 | the maximum's type, version and flag with the given source |
| BaseVersionCalculators.HandleBaseVersions | VersionCalculation/BaseVersionCalculation/BaseVersionCalculator.cs:43-69 | no candidates throws InvalidOperationException; a result has a candidate's source and is a candidate's base version with that source; when nothing matches the maximum, the result is the maximum's base version with the source of the first candidate in descending order, or InvalidOperationException when no candidate has a source |
| BaseVersionCalculators.CalculateVersion | VersionCalculation/BaseVersionCalculation/BaseVersionCalculator.cs:24-33 | a returned base version always has a source |
| BaseVersionCalculators.MaxWithSourceMatches | VersionCalculation/BaseVersionCalculation/BaseVersionCalculator.cs:48-52 | a maximum with a source is among the matching candidates |
| BaseVersionCalculators.MatchedCandidateWins | VersionCalculation/BaseVersionCalculation/BaseVersionCalculator.cs:54-60 | when some candidate matches, the result is the base version of a matching candidate at least as old as every other match |
| BaseVersionCalculators.UnmatchedBorrowsSource | VersionCalculation/BaseVersionCalculation/BaseVersionCalculator.cs:62-68 | when nothing matches, the maximum has no source and the result keeps its type, un-incremented version and flag with the source of the candidate the ordering puts first: none after it precedes it, and without case-only tags it precedes every one before it |
| BaseVersionCalculators.CaseOnlyTagsBorrowLater | VersionCalculation/BaseVersionCalculation/BaseVersionCalculator.cs:62-68 | with 1.0.0-Beta from one commit, 1.0.0-beta from another and a 2.0.0 without a source, the source borrowed is the second commit's |
| BaseVersionCalculators.NoSourceThrows | VersionCalculation/BaseVersionCalculation/BaseVersionCalculator.cs:62-66 | when no candidate has a source, `First()` throws InvalidOperationException |
| BaseVersionCalculators.MatchingUsesFullEquality | VersionCalculation/BaseVersionCalculation/BaseVersionCalculator.cs:45-52 | a candidate that compares equal to the maximum but differs in metadata is not matched |
| BaseVersionCalculators.NullSourceCheckNeverFires | VersionCalculation/BaseVersionCalculation/BaseVersionCalculator.cs:29-30 | the "Base version should not be null" exception can never be thrown |
| BaseVersionCalculators.FallbackOnly | VersionCalculation/BaseVersionCalculation/BaseVersionCalculator.cs:24-33 | with only the fallback strategy the result is 0.1.0 from the root commit, or the root-commit error |
| NextVersions.CalculateTag | VersionCalculation/PreReleaseTagCalculator.cs:8-34 | always alpha.1, a non-null tag printing "alpha.1" |
| NextVersions.TagIgnoresInputs | VersionCalculation/PreReleaseTagCalculator.cs:8-34 | the tag depends on neither the context nor the version |
| NextVersions.CalculateMetadata | VersionCalculation/MetadataCalculator.cs:8-27 | one commit since the tag, the repository's branch, the tip's hash and timestamp, no other metadata |
| NextVersions.MetadataIgnoresSource | VersionCalculation/MetadataCalculator.cs:8-27 | the base version's source plays no part |
| NextVersions.Create | VersionCalculation/NextVersionCalculator.cs:23-31 | without a base version calculator, the one with only the fallback strategy |
| NextVersions.CalculateVersion | VersionCalculation/NextVersionCalculator.cs:34-47 | fails exactly as the base calculation does; otherwise the incremented numbers, the alpha.1 tag and the metadata of the base version's source |
| NextVersions.DefaultsOnFirstCommit | VersionCalculation/NextVersionCalculator.cs:36-46 | with the defaults and one root commit the result prints "0.1.0-alpha.1", has one commit since the tag and MajorMinorPatch-equals 0.1.0 |
| AssemblyVersioning.Padded | AssemblyVersioning/AssemblyVersionsGenerator.cs:12-19 | the kept numbers padded with zeros to four parts |
| AssemblyVersioning.GetAssemblyVersion | AssemblyVersioning/AssemblyVersionsGenerator.cs:8-44 | an ArgumentException naming an undefined scheme; null exactly for None; otherwise the kept numbers and zeros as four dot-separated parts, for assembly and file versions alike |
| AssemblyVersioning.FourPartInjective | AssemblyVersioning/AssemblyVersionsGenerator.cs:12-19 | the four-part text determines its four numbers |
| AssemblyVersioning.SameAssemblyVersionIff | AssemblyVersioning/AssemblyVersionsGenerator.cs:8-25 | two versions get the same text under a scheme exactly when the numbers that scheme keeps agree |
| AssemblyVersioning.MajorMinorPatchIsCoreText | AssemblyVersioning/AssemblyVersionsGenerator.cs:16-17 | MajorMinorPatch is the "j" text plus ".0" |
| VersionVariablesBuilders.Decimal | Output/VersionVariablesBuilder.cs:11-13 | a non-empty digit string of the number's value |
| VersionVariablesBuilders.Major | Output/VersionVariablesBuilder.cs:11 | the digits of the major number |
| VersionVariablesBuilders.Minor | Output/VersionVariablesBuilder.cs:12 | the digits of the minor number |
| VersionVariablesBuilders.Patch | Output/VersionVariablesBuilder.cs:13 | the digits of the patch number |
| VersionVariablesBuilders.PreReleaseTag | Output/VersionVariablesBuilder.cs:15 | the tag's default text, non-empty for a non-null tag, which parses back for an invertible tag |
| VersionVariablesBuilders.PreReleaseTagWithDash | Output/VersionVariablesBuilder.cs:16 | null exactly for the null tag, otherwise "-" and the tag text; the "s" text is the core plus it |
| VersionVariablesBuilders.PreReleaseLabel | Output/VersionVariablesBuilder.cs:17 | null exactly for the null tag, otherwise the non-empty name |
| VersionVariablesBuilders.PreReleaseNumber | Output/VersionVariablesBuilder.cs:18 | null exactly for the null tag, "" without a number, otherwise the number's digits |
| VersionVariablesBuilders.BuildMetadata | Output/VersionVariablesBuilder.cs:20 | null exactly without a count, otherwise the count's digits |
| VersionVariablesBuilders.BuildMetadataPadded | Output/VersionVariablesBuilder.cs:21 | empty without a count, otherwise at least four digits of the count |
| VersionVariablesBuilders.FullBuildMetadata | Output/VersionVariablesBuilder.cs:22 | the trimmed "f" text, which parses back to equal metadata when invertible |
| VersionVariablesBuilders.MajorMinorPatch | Output/VersionVariablesBuilder.cs:32 | "M.m.p", the same as the "j" format |
| VersionVariablesBuilders.AssemblySemVer | Output/VersionVariablesBuilder.cs:29-30 | the MajorMinorPatch assembly version, "M.m.p.0", for assembly and file versions alike |
| VersionVariablesBuilders.SemVer | Output/VersionVariablesBuilder.cs:33 | the "s" format: "M.m.p" and the dashed tag |
| VersionVariablesBuilders.FullSemVer | Output/VersionVariablesBuilder.cs:34 | the "f" format: SemVer, plus "+count" only when a count is present |
| VersionVariablesBuilders.InformationalVersion | Output/VersionVariablesBuilder.cs:35 | the "i" format: SemVer plus "+" and the full metadata when that is non-empty |
| VersionVariablesBuilders.InformationalFormat | SemanticVersions/SemanticVersion.cs:289-293 | the "i" format appends the full metadata to the tagged text |
| VersionVariablesBuilders.InformationalVersionRoundTrip | Output/VersionVariablesBuilder.cs:35 | the informational version of an invertible version parses back Full-equal |
| VersionVariablesBuilders.NuGetVersion | Output/VersionVariablesBuilder.cs:37 | the "t" format, which equals SemVer |
| VersionVariablesBuilders.NuGetPreReleaseTag | Output/VersionVariablesBuilder.cs:38 | null exactly for the null tag, otherwise the lower-cased tag text, equal to it ignoring case |
| VersionVariablesBuilders.CommitsSinceVersionSource | Output/VersionVariablesBuilder.cs:27 | the digits of the version-source count |
| VersionVariablesBuilders.Build | Output/VersionVariablesBuilder.cs:45-72 | every variable is the derived property of the same name |
| VersionVariablesBuilders.BuildIsConsistent | Output/VersionVariablesBuilder.cs:45-72 | the built variables agree with each other, and the label is null exactly for the null tag |
| Configurations.ApplyBranchDefaults | Configuration/HgConfigurationProvider.cs:204-229 | a null or empty regex takes the given one, the source branches are always replaced, a null tag, prevent-increment or mainline flag takes its default, a null increment falls back to the default, then the configuration's increment, then Inherit, and a null mode to the default mode, then the configuration's mode |
| Configurations.ApplyBranchDefaultsKeepsAndFills | Configuration/HgConfigurationProvider.cs:218-228 | defaulting keeps every setting the user gave (apart from regex and sources) and leaves none of the required settings null |
| Configurations.ReapplyingDefaultsChangesNothing | Configuration/HgConfigurationProvider.cs:218-228 | applying the defaults again with the branch's own regex and sources changes nothing |
| Configurations.KnownStep | Configuration/HgConfigurationProvider.cs:192-202 | one known key: its key is added to the dictionary if missing and nothing else is added |
| Configurations.KnownPassKeys | Configuration/HgConfigurationProvider.cs:105-155 | the seven known-key steps keep the dictionary well formed and never remove a key |
| Configurations.KnownPassSnoc | Configuration/HgConfigurationProvider.cs:105-155 | the known pass over one more table entry is one more known step |
| Configurations.UserStep | Configuration/HgConfigurationProvider.cs:159-174 | a user-declared branch with a null regex or null sources fails with the 'missing required configuration' message; otherwise no key is added or removed |
| Configurations.UserPass | Configuration/HgConfigurationProvider.cs:159-174 | the pass over the user-declared keys keeps the key set when it succeeds |
| Configurations.AddSources | Configuration/HgConfigurationProvider.cs:180-183 | appending one key to the source branches of each target keeps the key set when it succeeds |
| Configurations.SourcePass | Configuration/HgConfigurationProvider.cs:177-184 | the second pass keeps the key set when it succeeds |
| Configurations.UserPasses | Configuration/HgConfigurationProvider.cs:157-184 | both passes over the user-declared keys keep the dictionary well formed and its key order |
| Configurations.DefaultBranches | Configuration/HgConfigurationProvider.cs:103-184 | the branch part of the defaults leaves a well-formed dictionary when it succeeds |
| Configurations.DefaultGlobalsKeepsAndFills | Configuration/HgConfigurationProvider.cs:88-101 | the global defaults keep every global setting that was set and fill every one the method assigns |
| Configurations.DefaultGlobalsIdempotent | Configuration/HgConfigurationProvider.cs:88-101 | applying the global defaults twice is the same as once |
| Configurations.Config.constructor | Configuration/HgConfigurationProvider.cs:241 | a new configuration has no setting and no branch |
| Configurations.Config.GetOrCreateBranchDefaults | Configuration/HgConfigurationProvider.cs:192-202 | returns the stored configuration when the key is present and changes nothing; otherwise adds a new configuration named after the key, at the end of the key order, and returns it |
| Configurations.Config.ApplyKnownBranch | Configuration/HgConfigurationProvider.cs:105-113 | the dictionary after one known key is the known step of the dictionary before |
| Configurations.Config.ApplyKnownBranchDefaults | Configuration/HgConfigurationProvider.cs:105-155 | the dictionary after the seven known keys is the known pass over the table |
| Configurations.Config.ApplyUserBranchDefaults | Configuration/HgConfigurationProvider.cs:159-174 | the loop fails exactly when the user pass does, with its error, and otherwise leaves the user pass's dictionary |
| Configurations.Config.AddExtraSourceBranches | Configuration/HgConfigurationProvider.cs:177-184 | the nested loop fails exactly when the source pass does, with its error, and otherwise leaves the source pass's dictionary |
| Configurations.Config.ApplyBranchDictionaryDefaults | Configuration/HgConfigurationProvider.cs:103-184 | the three loops over the snapshot of the user keys produce exactly the branch defaults, failing with the same error |
| Configurations.Config.ApplyDefaultsTo | Configuration/HgConfigurationProvider.cs:86-185 | the globals become their defaults and the branches the branch defaults computed with the original increment and the defaulted mode; the method fails exactly when those do |
| Configurations.Overridden | Configuration/HgConfigurationProvider.cs:189 | a blank override prefix keeps the tag prefix, any other replaces it, and nothing else changes |
| Configurations.Config.ApplyOverridesTo | Configuration/HgConfigurationProvider.cs:187-190 | only the tag prefix changes, as the override says |
| Configurations.Config.Provide | Configuration/HgConfigurationProvider.cs:62-84 | when some branch as read is in mainline mode it fails with the mainline message and nothing changes; otherwise without defaults only the override applies, and with defaults the result is the defaulted configuration, then overridden |
| Configurations.MainlineOnlyByDefault | Configuration/HgConfigurationProvider.cs:62-84 | a branch that passes the mainline check ends up in mainline mode after its defaults exactly when it sets no mode itself and its defaults, or else the global mode, are mainline |
| ConfigurationProperties.KeepsUserValuesTransitive | Configuration/HgConfigurationProvider.cs:218-228 | keeping the user's values composes over successive defaulting steps |
| ConfigurationProperties.KnownFromSnoc | Configuration/HgConfigurationProvider.cs:105-155 | the keys of a table prefix grow by its last entry |
| ConfigurationProperties.KnownStepAt | Configuration/HgConfigurationProvider.cs:192-229 | after one known step its key is filled, every other key is unchanged, and the user's values are kept |
| ConfigurationProperties.KnownPassAt | Configuration/HgConfigurationProvider.cs:105-155 | after the known pass the keys are the old ones plus the table's, each table key is filled, the user's values are kept and other keys are untouched |
| ConfigurationProperties.KnownFromStart | Configuration/HgConfigurationProvider.cs:105-155 | the table's keys are exactly develop, default, release, feature, pull-request, hotfix and support |
| ConfigurationProperties.UserPassAt | Configuration/HgConfigurationProvider.cs:159-174 | a successful user pass fills every visited key, keeps the user's values and leaves other keys alone |
| ConfigurationProperties.UserStepLacking | Configuration/HgConfigurationProvider.cs:161-173 | a successful step never makes another key lack or stop lacking its regex or sources |
| ConfigurationProperties.UserPassUnfold | Configuration/HgConfigurationProvider.cs:159-174 | after a successful first key the pass goes on with the rest |
| ConfigurationProperties.UserPassFails | Configuration/HgConfigurationProvider.cs:159-174 | the user pass fails exactly when some user-declared key lacks its regex or its source branches |
| ConfigurationProperties.UserPassFirstError | Configuration/HgConfigurationProvider.cs:162-171 | the error names the first lacking key, and says 'regex' when that is missing and 'source-branches' otherwise |
| ConfigurationProperties.SourcesGrownTransitive | Configuration/HgConfigurationProvider.cs:182 | appending to the source branches composes |
| ConfigurationProperties.AddSourcesAt | Configuration/HgConfigurationProvider.cs:180-183 | adding sources fails with a missing-key error exactly when a target is not a configured branch; otherwise each target gains the key and only source lists grow |
| ConfigurationProperties.SourcePassAt | Configuration/HgConfigurationProvider.cs:177-184 | every user key naming a branch in its is-source-branch-for list ends up among that branch's sources; only source lists change |
| ConfigurationProperties.DefaultsFillEveryBranch | Configuration/HgConfigurationProvider.cs:103-184 | after successful defaults the keys are the user's plus the seven known keys, every branch has all required settings, and every setting the user gave is kept |
| ConfigurationProperties.KnownPassFresh | Configuration/HgConfigurationProvider.cs:192-229 | a table key the user did not declare receives exactly its table defaults applied to a new configuration |
| ConfigurationProperties.EmptyKnownPass | Configuration/HgConfigurationProvider.cs:105-155 | on an empty dictionary the known pass yields exactly the seven keys with their table defaults |
| ConfigurationProperties.EmptyKnownPassAt | Configuration/HgConfigurationProvider.cs:105-155 | one table entry of that result |
| ConfigurationProperties.EmptyUserPasses | Configuration/HgConfigurationProvider.cs:157-184 | with no user-declared branch the user passes change nothing |
| ConfigurationProperties.TableDefaults | Configuration/HgConfigurationProvider.cs:105-141 | develop is Minor, "alpha" and continuous deployment; default is Patch, untagged and mainline; release is Patch, "beta" and a release branch; feature and pull-request inherit, pull-request tagged "PullRequest" |
| ConfigurationProperties.EmptyConfigurationDefaults | Configuration/HgConfigurationProvider.cs:103-184 | a configuration with no branches succeeds and its develop, default, release, feature and pull-request entries are the table defaults |
| BranchConfigurations.SynthesisedConfig | src/HgVersion/Configuration/BranchConfigurationCalculator.cs:22-31 | a branch with no matching configuration gets one with an empty name, an empty regex, no sources, all required settings, and the configuration's increment or else Inherit |
| BranchConfigurations.InheritConfigured | src/HgVersion/Configuration/BranchConfigurationCalculator.cs:55-65 | the default exclusion list holds exactly the repository branches whose configuration exists and says Inherit |
| BranchConfigurations.DefaultOrFirst | src/HgVersion/Configuration/BranchConfigurationCalculator.cs:207 | picks a branch named default when there is one, and the first branch otherwise |
| BranchConfigurations.WhenMultipleParents | src/HgVersion/Configuration/BranchConfigurationCalculator.cs:185-230 | one head at the second parent becomes the target and both are excluded; several heads there give one of them (default preferred); none gives a head at the first parent when there is one, and otherwise the target is kept; only the first case changes the exclusions |
| BranchConfigurations.PossibleParents | src/HgVersion/Configuration/BranchConfigurationCalculator.cs:153-183 | every candidate is an evaluated branch; with no branch point the candidates are the first two (or fewer) evaluated branches headed at the current commit, in order; with one, exactly the evaluated branches headed at the branch point, less those headed at the current commit when several are |
| BranchConfigurations.FirstMatching | src/HgVersion/Configuration/BranchConfigurationCalculator.cs:110-113 | with both patterns present the result is a branch matching either pattern with no matching branch before it, or none exactly when no branch matches; a null pattern throws ArgumentNullException once a branch is tested |
| BranchConfigurations.Chosen | src/HgVersion/Configuration/BranchConfigurationCalculator.cs:107-113 | a missing develop key, then a missing default key, throws KeyNotFoundException; a fallback branch found is a repository branch matching the develop or the default pattern with no matching branch before it |
| BranchConfigurations.Inherited | src/HgVersion/Configuration/BranchConfigurationCalculator.cs:89-95 | the copy takes the parent's increment, prevent-increment and tracks-release-branches settings and keeps the rest; a parent error passes through |
| BranchConfigurations.Prepare | src/HgVersion/Configuration/BranchConfigurationCalculator.cs:46-81 | the list keeps what it was given (or the Inherit-configured branches), gains the branch itself, and no possible parent is on it |
| BranchConfigurations.PrepareStable | src/HgVersion/Configuration/BranchConfigurationCalculator.cs:46-81 | preparing again with the list the first preparation left gives the same plan |
| BranchConfigurations.RemainingNotLarger | src/HgVersion/Configuration/BranchConfigurationCalculator.cs:88-141 | the branches not yet excluded never grow from one resolution step to the next, and shrink when the next branch was not excluded |
| BranchConfigurations.Get | src/HgVersion/Configuration/BranchConfigurationCalculator.cs:17-36 | a configuration that does not say Inherit is returned with the list untouched; any successful result never says Inherit and differs from the matching configuration only in the three inherited settings |
| BranchConfigurations.Inherit | src/HgVersion/Configuration/BranchConfigurationCalculator.cs:38-151 | a successful result never says Inherit and changes only the three inherited settings; with not exactly one parent and a fallback that is the branch or its merge target, the result is its own configuration with the Patch increment |
| BranchConfigurations.FallbackOnItself | src/HgVersion/Configuration/BranchConfigurationCalculator.cs:128-139 | an inheriting branch that is its own fallback, with not exactly one parent, gets its configuration with the Patch increment |
| BranchConfigurations.NoFallbackBranchThrows | src/HgVersion/Configuration/BranchConfigurationCalculator.cs:115-122 | with not exactly one parent and no branch matching the develop or default regex, resolution throws InvalidOperationException |
| BranchConfigurations.PrepareKeepsDistinct | src/HgVersion/Configuration/BranchConfigurationCalculator.cs:67-71 | when the given exclusion list has no duplicates, the list the preparation leaves has none either |
| BranchConfigurations.AsWrittenGet | src/HgVersion/Configuration/BranchConfigurationCalculator.cs:17-36 | the calculator as written, with bounded depth: a non-inheriting configuration is returned as it is and no success says Inherit |
| BranchConfigurations.AsWrittenInherit | src/HgVersion/Configuration/BranchConfigurationCalculator.cs:38-151 | the inheritance step whose self-check compares the fallback only with the merge target; running out of depth is a stack overflow |
| BranchConfigurations.AsWrittenLoops | src/HgVersion/Configuration/BranchConfigurationCalculator.cs:128-141 | an inheriting fallback branch whose merge target is another branch, with not exactly one parent and a stable plan, re-enters itself at every depth |
| BranchConfigurations.LoopingSecondParentHeads | src/HgVersion/Configuration/BranchConfigurationCalculator.cs:191-193 | in the example repository one other branch, x, is headed at the merge's second parent |
| BranchConfigurations.LoopingMergeTarget | src/HgVersion/Configuration/BranchConfigurationCalculator.cs:195-204 | so develop's merge target becomes x, and the exclusions become develop and x |
| BranchConfigurations.LoopingInheritConfigured | src/HgVersion/Configuration/BranchConfigurationCalculator.cs:55-65 | develop is the only Inherit-configured branch of the example |
| BranchConfigurations.LoopingEvaluated | src/HgVersion/Configuration/BranchConfigurationCalculator.cs:67-76 | the exclusion list develop's preparation makes is develop and x, which leaves no branch to evaluate |
| BranchConfigurations.LoopingPlan | src/HgVersion/Configuration/BranchConfigurationCalculator.cs:46-81 | develop's plan in the example has no possible parent |
| BranchConfigurations.LoopingFallback | src/HgVersion/Configuration/BranchConfigurationCalculator.cs:107-113 | the example's fallback branch is develop itself |
| BranchConfigurations.AsWrittenDoesNotTerminate | src/HgVersion/Configuration/BranchConfigurationCalculator.cs:128-141 | in the example the calculator as written overflows whatever the depth bound |
| BranchConfigurations.LoopingResolved | src/HgVersion/Configuration/BranchConfigurationCalculator.cs:128-139 | with the corrected guard the example resolves to develop's configuration with the Patch increment |
| BranchConfigurations.ExclusionList.constructor | src/HgVersion/Configuration/BranchConfigurationCalculator.cs:57-64 | the list holds the given branches |
| BranchConfigurations.ExclusionList.AddMissing | src/HgVersion/Configuration/BranchConfigurationCalculator.cs:67-71 | the list gains, in order, exactly the given branches it did not hold |
| BranchConfigurations.GetBranchConfiguration | src/HgVersion/Configuration/BranchConfigurationCalculator.cs:17-36 | the method's answer and the shared list it leaves are those of the resolution function |
| BranchConfigurations.PrepareInheritance | src/HgVersion/Configuration/BranchConfigurationCalculator.cs:44-81 | the merge target, the shared list (the given object, or a new one) and the possible parents are the plan of the resolution function |
| BranchConfigurations.InheritBranchConfiguration | src/HgVersion/Configuration/BranchConfigurationCalculator.cs:38-151 | the method's answer and the shared list it leaves are those of the inheritance function |
| BranchHeads.Equals | VCS/HgBranchHead.cs:25-30 | a head equals another exactly when the other is not null and has the same name and the same commit; the same-reference shortcut agrees |
| BranchHeads.EqualsObject | VCS/HgBranchHead.cs:32-37 | an object equals a head exactly when it is a head with the same name and commit; null and objects of other types are unequal |
| BranchHeads.OperatorEquals | VCS/HgBranchHead.cs:50-53 | `==` holds exactly when both sides are null or both are equal heads |
| BranchHeads.OperatorNotEquals | VCS/HgBranchHead.cs:55-58 | `!=` is the negation of `==` |
| BranchHeads.OperatorsAgreeWithEquals | VCS/HgBranchHead.cs:25-58 | the operators on a non-null left side give the same answer as `Equals` |
| BranchHeads.OperatorEqualsSymmetric | VCS/HgBranchHead.cs:50-53 | `==` is symmetric |
| NamedCommits.NamedCommit.FromCommit | src/HgVersion/VCS/HgNamedCommit.cs:25-30 | a head made from a commit holds it, and its factory answers null |
| NamedCommits.NamedCommit.FromLookup | src/HgVersion/VCS/HgNamedCommit.cs:37-41 | a head made from a lookup holds no commit until the first read |
| NamedCommits.NamedCommit.GetCommit | src/HgVersion/VCS/HgNamedCommit.cs:18 | a stored commit is returned without calling the factory; otherwise the factory is called once and its commit stored and returned, and a null answer throws InvalidOperationException |
| NamedCommits.ReadTwice | src/HgVersion/VCS/HgNamedCommit.cs:18 | two reads give the same answer, a successful one is remembered, and the factory runs at most once when it answers |
| NamedCommits.EagerCommitIsReturned | src/HgVersion/VCS/HgNamedCommit.cs:25-30 | a head made from a commit returns that commit |
| NamedCommits.EagerNullCommitThrows | src/HgVersion/VCS/HgNamedCommit.cs:25-30 | a head made from a null commit throws on read, because its factory returns the null field |
| MetadataProviders.ParsedTag | VCS/HgRepositoryMetadataProvider.cs:45-51 | a tag contributes exactly the version it parses to, or nothing |
| MetadataProviders.ParsedTags | VCS/HgRepositoryMetadataProvider.cs:44-52 | the versions are exactly those that some tag parses to |
| MetadataProviders.ParsedTagsAppend | VCS/HgRepositoryMetadataProvider.cs:44-52 | parsing a concatenation of tag lists concatenates the results, so the order of the tags is kept |
| MetadataProviders.CommitTags | VCS/HgRepositoryMetadataProvider.cs:41 | one tag list per commit, in log order |
| MetadataProviders.VersionTagsOnBranch | VCS/HgRepositoryMetadataProvider.cs:38-52 | the versions are exactly those parsed from the tags of the branch's tagged commits, as the log returns them |
| MetadataProviders.BranchesContainingCommit | VCS/HgRepositoryMetadataProvider.cs:60-72 | a null commit throws ArgumentNullException; otherwise exactly the given branches headed at the commit |
| MetadataProviders.HeadsAt | VCS/HgRepositoryMetadataProvider.cs:69-70 | exactly the given branches headed at the commit, never more of them |
| MetadataProviders.HeadsAtAppend | VCS/HgRepositoryMetadataProvider.cs:69-70 | filtering a concatenation concatenates the results, so the order of the branches is kept |
| MetadataProviders.Names | VCS/HgRepositoryMetadataProvider.cs:115 | the excluded branches' names, in order |
| MetadataProviders.CommitWasBranchedFrom | VCS/HgRepositoryMetadataProvider.cs:103-131 | a null branch throws ArgumentNullException; otherwise the first commit of the parents query without the excluded branches, or null when it is empty |
| MetadataProviders.MergeBaseOf | VCS/HgRepositoryMetadataProvider.cs:87-92 | the first commit of the common-ancestor query, which names the branch twice, or null when it is empty |
| MetadataProviders.MetadataProvider.constructor | VCS/HgRepositoryMetadataProvider.cs:19-25 | both caches start empty over the given repository |
| MetadataProviders.MetadataProvider.GetVersionTagsOnBranch | VCS/HgRepositoryMetadataProvider.cs:28-57 | a cached branch answers from the cache and changes nothing; otherwise the tags are computed with one log query and cached under the branch alone |
| MetadataProviders.MetadataProvider.FindMergeBase | VCS/HgRepositoryMetadataProvider.cs:75-100 | the answer is always the merge base of the first branch; a cached pair changes nothing, a new pair is computed with one query and cached |
| MetadataProviders.TagsTwice | VCS/HgRepositoryMetadataProvider.cs:30-34 | a second call for the same branch with another prefix returns the first call's versions, and only one query is made |
| MetadataProviders.MergeBaseIgnoresOther | VCS/HgRepositoryMetadataProvider.cs:89-91 | the merge base does not depend on the other branch |
| MergeMessages.TargetBranch | VCS/HgMergeMessage.cs:31-36 | no "into" (ignoring case) gives no target; otherwise the target is the text from five characters after the last "into"; an "into" that ends the message makes `Substring` throw ArgumentOutOfRangeException |
| MergeMessages.LineRun | VCS/HgMergeMessage.cs:16-20 | `.*` takes the longest run of characters up to the next line break |
| MergeMessages.MergeHead | VCS/HgMergeMessage.cs:12 | the lead "merge branch '" or "merge tag '" the message starts with, ignoring case, or none |
| MergeMessages.MergeBranchForm | VCS/HgMergeMessage.cs:11-13 | the merge-branch pattern matches only after that lead and captures the text up to the next quote, which must follow |
| MergeMessages.FinishForm | VCS/HgMergeMessage.cs:19-21 | the finish pattern matches exactly when the message starts with "finish ", ignoring case, and captures the rest of the first line |
| MergeMessages.PullRequestForm | VCS/HgMergeMessage.cs:15-17 | the pull-request pattern matches exactly when the message starts with "merge pull request #" (ignoring case), then digits, then " from " or " in "; the number is the whole digit run after the lead, and the source is the rest of that line after the separator |
| MergeMessages.Separator | VCS/HgMergeMessage.cs:16 | the separator is " from " when the text starts with it ignoring case, else " in " when it starts with that, else there is none; " from " is tried first |
| MergeMessages.ParseInt32 | VCS/HgMergeMessage.cs:76-79 | `int.TryParse` of a digit run succeeds exactly when it is non-empty and fits in 32 bits, giving its value |
| MergeMessages.ParseBranch | VCS/HgMergeMessage.cs:57-86 | the three patterns are tried in order and the first match gives the merged branch, or "" when none matches; only the pull-request pattern marks a merged pull request, and only it gives a number |
| MergeMessages.WordRun | VCS/HgMergeMessage.cs:41 | `\w+` takes the longest run of word characters |
| MergeMessages.WordRunWords | VCS/HgMergeMessage.cs:41 | every character of that run is a word character |
| MergeMessages.AllWordRun | VCS/HgMergeMessage.cs:41 | a stretch of word characters that a non-word character ends is exactly the run `\w+` takes |
| MergeMessages.SegmentsEnd | VCS/HgMergeMessage.cs:41 | the repeated `\w+[-/]` prefix ends inside the text, at a point where no further segment starts |
| MergeMessages.SegmentsEndChains | VCS/HgMergeMessage.cs:41 | what that prefix passes over is a chain of segments, each a non-empty word run followed by "-" or "/" |
| MergeMessages.SegmentsEndLongest | VCS/HgMergeMessage.cs:41 | no longer chain of segments starts at the same place: the prefix is the longest one |
| MergeMessages.SegmentsEndStep | VCS/HgMergeMessage.cs:41 | a segment at the start is passed over whole and the match goes on after it |
| MergeMessages.StripSegments | VCS/HgMergeMessage.cs:41 | removing the leading segments leaves a suffix of the branch at which no segment starts |
| MergeMessages.StripSegmentsLongest | VCS/HgMergeMessage.cs:41 | exactly the longest prefix made of segments is removed |
| MergeMessages.StripTagPrefix | VCS/HgMergeMessage.cs:42 | `^` before an ungrouped pattern anchors only its first alternative: at the start of the text the first alternative in order that matches is removed, and past it every later alternative is removed wherever it occurs; when all alternatives are anchored this is the first one that starts the text, or nothing when none does; never longer than the text |
| MergeMessages.FirstPrefix | VCS/HgMergeMessage.cs:42 | the first alternative, in the order tried, that the text starts with, no earlier one matching; none exactly when no alternative is a prefix |
| MergeMessages.RemoveAll | VCS/HgMergeMessage.cs:42 | the scan that removes the unanchored alternatives past the start is never longer than the text |
| MergeMessages.RemoveNothing | VCS/HgMergeMessage.cs:42 | with no unanchored alternative the scan keeps the text |
| MergeMessages.RemoveAllUnchanged | VCS/HgMergeMessage.cs:42 | a text in which no non-empty alternative ever matches is kept |
| MergeMessages.RemoveAllChars | VCS/HgMergeMessage.cs:42 | single-character alternatives are all taken out, and what is left comes from the text |
| MergeMessages.DotRun | VCS/HgMergeMessage.cs:45 | `\.*` stops inside the text, before a character that is not a dot |
| MergeMessages.DotRunDots | VCS/HgMergeMessage.cs:45 | everything `\.*` takes is a dot, so it is the longest run of dots |
| MergeMessages.MoreGroups | VCS/HgMergeMessage.cs:45 | `(\.*\d+)*` stops within the text, never before where it starts |
| MergeMessages.MoreGroupsRound | VCS/HgMergeMessage.cs:45 | one round of `\.*\d+`: either none applies, and the match stops there before a non-digit, or it takes the dots and then the digits, ends on a digit and the match continues after it |
| MergeMessages.MoreGroupsRun | VCS/HgMergeMessage.cs:45 | everything the groups take is a digit or a dot |
| MergeMessages.MoreGroupsLast | VCS/HgMergeMessage.cs:45 | a non-empty match ends on a digit |
| MergeMessages.MoreGroupsNoDigit | VCS/HgMergeMessage.cs:45 | no digit follows where the match stops |
| MergeMessages.MoreGroupsNoRound | VCS/HgMergeMessage.cs:45 | no further dots-then-digits round starts where the match stops |
| MergeMessages.VersionEnd | VCS/HgMergeMessage.cs:45 | a version text is digits, a dot, digits and more groups; it ends on a digit no further group can extend |
| MergeMessages.VersionRun | VCS/HgMergeMessage.cs:45-46 | the version pattern matches exactly when the text starts with digits, a dot and digits; the match is that prefix |
| MergeMessages.BranchVersion | VCS/HgMergeMessage.cs:40-54 | after removing the segments and the tag prefix (read as the ungrouped pattern), a version is found exactly when the rest starts with the version pattern and its matched text parses with the prefix alternatives, and it is that parse |
| MergeMessages.Parse | VCS/HgMergeMessage.cs:26-55 | a null message is read as empty and a null configuration as one without a tag prefix; the message fails only when it ends in "into"; otherwise the target, the merged branch, the pull-request fields and the version are those above |
| MergeMessageForms.MergeBranchMessage | VCS/HgMergeMessage.cs:59-63 | "Merge branch 'x'" or "Merge tag 'x'" followed by anything gives merged branch x, not a pull request |
| MergeMessageForms.FinishMessage | VCS/HgMergeMessage.cs:65-69 | "Finish x" gives merged branch x, up to the end of its line |
| MergeMessageForms.PullRequestFormOf | VCS/HgMergeMessage.cs:15-17 | "Merge pull request #d from s" or "… in s" captures d and s |
| MergeMessageForms.PullRequestMessage | VCS/HgMergeMessage.cs:71-83 | such a message is a merged pull request from s, with number n when it fits in 32 bits and none otherwise |
| MergeMessageForms.LastIntoAt | VCS/HgMergeMessage.cs:31 | in "x into y" with no "into" in y, the last "into" is the one after x |
| MergeMessageForms.TargetAfterLastInto | VCS/HgMergeMessage.cs:31-36 | so the target of "x into y" is y |
| MergeMessageVersions.CoreTextParses | VCS/HgMergeMessage.cs:50 | "a.b.c" parses back to the version a.b.c |
| MergeMessageVersions.CoreTextMatches | VCS/HgMergeMessage.cs:41-46 | "a.b.c" has no segment to strip and matches the version pattern whole |
| MergeMessageVersions.StripFirstPrefix | VCS/HgMergeMessage.cs:42 | a text of digits and dots starting with a digit, after the first alternative tried or after nothing, comes out without it, when no alternative starts with a digit and no unanchored one with a digit or a dot |
| MergeMessageVersions.StripTagPrefixOfNumber | VCS/HgMergeMessage.cs:42 | under those conditions a text of digits and dots starting with a digit is kept whole |
| MergeMessageVersions.VersionTextUnmatched | VCS/HgMergeMessage.cs:42 | an alternative starting with neither a digit nor a dot matches nowhere inside a text of digits and dots |
| MergeMessageVersions.UnanchoredRemoved | VCS/HgMergeMessage.cs:42 | of a digit, then the first unanchored alternative, then digits and dots, only the alternative is removed |
| MergeMessageVersions.AnywhereRemoved | VCS/HgMergeMessage.cs:42 | with "a" anchored and "b" not, "1b.2.3" becomes "1.2.3" |
| MergeMessageVersions.AlternationInsideText | VCS/HgMergeMessage.cs:42 | so with the tag prefix "a\|b", "1b.2.3" becomes "1.2.3" although the "b" is not at the start |
| MergeMessageVersions.AlternationInsideVersion | VCS/HgMergeMessage.cs:40-54 | and the branch "release/1b.2.3" then carries the version 1.2.3 |
| MergeMessageVersions.VersionAfterStrip | VCS/HgMergeMessage.cs:40-54 | a branch "w/s" or "w-s" whose s is left as "a.b.c" once the tag prefix is off carries a.b.c, when no alternative starts with a digit |
| MergeMessageVersions.BranchVersionOf | VCS/HgMergeMessage.cs:40-54 | a branch "w/pre a.b.c" or "w-pre a.b.c", with pre empty or the first alternative, gives the version a.b.c for every tag prefix none of whose alternatives starts with a digit and none of whose unanchored alternatives starts with a digit or a dot |
| MergeMessageVersions.NullMessage | VCS/HgMergeMessage.cs:28 | a null message gives no target, an empty merged branch, no pull request and no version |
| MergeMessageVersions.EmptyBranchVersion | VCS/HgMergeMessage.cs:40-54 | an empty branch name carries no version, whatever the tag prefix |
| MergeMessageVersions.ReleaseNameUnquoted | VCS/HgMergeMessage.cs:12 | a release branch name has no quote, so the merge-branch pattern captures all of it |
| MergeMessageVersions.MergeIntoForm | VCS/HgMergeMessage.cs:26-55 | "Merge branch 'x' into y" gives target y, merged branch x, no pull request, and the version found in x |
| MergeMessageVersions.MergedReleaseBranch | VCS/HgMergeMessage.cs:26-55 | "Merge branch 'release/a.b.c' into y" (any word and separator) gives target y and the version a.b.c |
| TagPrefixes.Split | SemanticVersions/SemanticVersion.cs:168 | the parts between separators, none containing one |
| TagPrefixes.SplitJoin | SemanticVersions/SemanticVersion.cs:168 | joining the parts with the separator gives the text back |
| TagPrefixes.Alternatives | SemanticVersions/SemanticVersion.cs:168 | a null prefix accepts nothing, a class of plain characters accepts each character in order, any other pattern its `|`-separated alternatives, which join back to it |
| TagPrefixes.LiteralPattern | SemanticVersions/SemanticVersion.cs:168 | a pattern with no `|` that is not a class accepts only itself |
| TagPrefixes.DefaultAlternatives | Configuration/HgConfigurationProvider.cs:16 | the default prefix `[vV]` accepts "v" and then "V" |
| TagPrefixes.Ungrouped | VCS/HgMergeMessage.cs:42 | the pattern written after `^` without a group: a class is anchored whole; otherwise only the first alternative is anchored and the rest may match anywhere; together they are the alternatives, in order |
| TagPrefixes.UngroupedLiteral | VCS/HgMergeMessage.cs:42 | a pattern without `\|` that is not a class is anchored whole |
| TagPrefixes.UngroupedAlternation | VCS/HgMergeMessage.cs:42 | "a\|b" anchors "a" only and lets "b" match anywhere |
| TagPrefixes.DefaultUngrouped | VCS/HgMergeMessage.cs:42 | the default `[vV]` is anchored whole |
| VersionContexts.FirstMissing | src/HgVersion/HgVersionContext.cs:64-76 | the checks run in order: none fails exactly when every setting is present, and otherwise the first absent one is reported |
| VersionContexts.BranchRequiredMeans | HgVersionContext.cs:69-80 | the branch checks pass exactly when the mode, increment, prevent-increment, track-merge-target, tracks-release-branches and is-release-branch settings are all present |
| VersionContexts.GlobalRequiredMeans | src/HgVersion/HgVersionContext.cs:71-76 | the global checks pass exactly when the two assembly schemes, commit-message incrementing and both paddings are present, and, in the current layout, the tagged-commits limit too |
| VersionContexts.EffectiveConfigurationOf | src/HgVersion/HgVersionContext.cs:60-116 | the effective configuration exists exactly when every check passes; it carries the branch's mode, increment, flags, tag, tag-number pattern and regex, the configuration's schemes, prefix, messages and paddings, and the branch's commit-message incrementing or else the configuration's |
| VersionContexts.EffectiveErrors | src/HgVersion/HgVersionContext.cs:64-76 | a missing branch setting is reported before a missing global one, each with the message of its layout |
| VersionContexts.LayoutsAgree | HgVersionContext.cs:65-128 | when every check passes, both layouts compute the same effective configuration apart from the tagged-commits limit the older one does not carry |
| VersionContexts.FirstMissingHead | src/HgVersion/HgVersionContext.cs:132-136 | an absent first setting is the one reported |
| VersionContexts.FirstMissingAfter | src/HgVersion/HgVersionContext.cs:64-76 | checks that pass do not change which setting is reported |
| VersionContexts.LimitFirstMissing | src/HgVersion/HgVersionContext.cs:76 | when the older layout's checks pass and the limit is absent, the current layout reports TaggedCommitsLimit |
| VersionContexts.MissingLimit | src/HgVersion/HgVersionContext.cs:76 | such a configuration passes in the older layout and fails in the current one with the TaggedCommitsLimit message |
| VersionContexts.MissingVersioningMode | src/HgVersion/HgVersionContext.cs:64 | an absent mode fails first, naming VersioningMode |
| VersionContexts.MissingVersioningModeOlder | HgVersionContext.cs:69-70 | in the older layout an absent mode fails first with the message naming 'Versioning mode' and the branch |
| VersionContexts.DefaultedPasses | src/HgVersion/HgVersionContext.cs:64-76 | a branch with all its defaults and the defaulted globals passes the older checks, and the current ones exactly when a tagged-commits limit was configured |
| VersionContexts.MaxFrom | src/HgVersion/HgVersionContext.cs:129 | the running maximum is one of the versions and no version compares above it |
| VersionContexts.MaxVersion | src/HgVersion/HgVersionContext.cs:129 | `Max()` is null exactly for no versions, otherwise one of them above which none compares |
| VersionContexts.MaxFromAppend | src/HgVersion/HgVersionContext.cs:129 | the maximum of one more version is one more comparison step, which keeps the earlier maximum unless the new one compares above it |
| VersionContexts.MaxVersionAppend | src/HgVersion/HgVersionContext.cs:129 | the same, starting from null |
| VersionContexts.TaggedVersion | src/HgVersion/HgVersionContext.cs:118-130 | null exactly when no tag of the commit parses; otherwise the version of one of its tags, above which no tag's version compares |
| VersionContexts.TaggedVersionAppend | src/HgVersion/HgVersionContext.cs:118-130 | one more tag changes the result only when it parses, by one comparison step |
| VersionContexts.CaseOnlyTagsKeepFirst | src/HgVersion/HgVersionContext.cs:129 | for tags that differ only in the case of their pre-release name the first one wins, whichever it is |
| VersionContexts.Effective | src/HgVersion/HgVersionContext.cs:60-62 | the effective configuration of the current branch's resolved configuration never has the Inherit increment |
| VersionContexts.NonInheritingBranch | src/HgVersion/HgVersionContext.cs:62 | a branch whose configuration does not inherit is checked with that configuration as it is |
| VersionContexts.VersionContext.constructor | src/HgVersion/HgVersionContext.cs:47-58 | the context holds the repository, its current branch and commit, the configuration, a new metadata provider over the repository, the given effective configuration, the current commit's tagged version, and is tagged exactly when that version is not null |
| VersionContexts.NewVersionContext | src/HgVersion/HgVersionContext.cs:47-58 | construction fails exactly when the effective configuration does, with its error; otherwise the new context carries it, the repository's current branch and commit, a new metadata provider over the same repository, and the tagged version computed with the configured tag prefix |

## Left out

- Mercurial access (`HgRepository`, `HgCommit`, `HgTag`, `CountCommand`, the `I*` interfaces) is a foreign library: the repository is an abstract value whose parents, tip, branches, tags and log-query results are given.
- The log-query builder and its rendering into Mercurial revsets live in Mercurial.Net and are not shown; queries are opaque and their results are part of the abstract repository.
- File and template I/O (assembly-info updating, version-information generation, embedded templates, the directory scan of `HgPreparer`), and the reading, serialising and path handling of `HgConfigurationProvider`: `Configurations.Config.Provide` takes the already-read configuration as its input.
- Logger calls are tracing only and have no effect on the results.
- General .NET regular expressions: the fixed grammars (semantic version, pre-release tag, build metadata, merge messages) are written out as character tests, with ASCII `\d`, `\w` and ASCII case folding standing in for culture-invariant ignore-case comparison.
- TagPrefixes.Alternatives: a tag-prefix pattern is read as a character class of plain characters or a list of literal alternatives; other regex syntax in a user's prefix is not interpreted.
- BranchConfigurations.FirstMatching: branch-name regexes from the configuration are a given matching function, not interpreted.
- Date and culture formatting of the commit date in the output variables: timestamps are tick counts and the formatted date is not modelled.
- `string.GetHashCode` is randomised per process; it is a fixed function of the characters, and only hash consistency with equality is proved.
- `int.Parse` overflow and negative numbers: version numbers are `nat`, and increments do not wrap at 2^31.
- The version filters and base-version strategy list of the effective configuration are not projected, because no modelled operation reads them.
- The `BranchConfig` copy constructor is modelled as datatype update, so its field-by-field copying is not a separate member.
- `VersionEngine`, `SemanticVersionExtensions`, the exception classes and the commented-out `GetBranchSpecificTag` code are wiring or declarations with nothing to state; exceptions become error values.
- BranchConfigurations.AsWrittenGet: the as-written resolution, which can recurse without end, carries a fuel bound and reports a stack overflow when it runs out; the model does not say at which depth .NET would overflow.
- PreReleaseTags.CompareTo: names are compared ordinally after ASCII lower-casing, not by the culture-invariant collation of `StringComparison.InvariantCultureIgnoreCase`; the two can order differently, for example the tags of 1.0.0-a_b and 1.0.0-a1b, so the order of `SemanticVersions.CompareTo`, `VersionContexts.MaxVersion` and the choice of base version follow the ordinal order.
- NextVersions.Create: only the base version calculator can be injected; the metadata and tag calculators are always the two stubs of the source, so substituting other implementations of those interfaces is not modelled.
- BuildMetadatas.PaddedCount: how "D" + N is read for a large precision depends on the .NET runtime, and the model follows .NET 6, where any N from 0 up to `int.MaxValue` gives at least N digits. Runtimes before .NET 6 accept a precision of 0 to 99 only and read "D100" and above as a custom format, which gives "D107" for the count 7 and "p100"; .NET 7 and later throw a FormatException for N above 999,999,999. Neither of those readings is modelled.
- VersionVariablesBuilders.NuGetPreReleaseTag: the tag is lower-cased ASCII letter by letter, while the source's `ToLower()` follows the current culture, which also lowers letters outside ASCII ("BÉTA" becomes "béta" there but "bÉta" here).
- Custom `IFormatProvider` formatters passed to `ToString` are not modelled; only the built-in format strings are.
- Tests, test harnesses and the integration scenarios that drive a real hg binary are not part of this model.

## Findings

| source | as written | input that shows it | evidently intended | confidence | as-written member | corrected member |
|---|---|---|---|---|---|---|
| src/HgVersion/Configuration/BranchConfigurationCalculator.cs:128-141 | the fallback guard compares the chosen develop/default branch with the target reassigned by `CalculateWhenMultipleParents`, not with the branch being resolved | develop configured Inherit and the only Inherit branch; the current commit is a merge whose second parent is the head of one other branch, x; develop and x are then excluded and no possible parent is left: resolving develop chooses develop again with the same exclusion list and recurses without end | a branch that falls back on itself takes Patch | not executed | BranchConfigurations.AsWrittenDoesNotTerminate | BranchConfigurations.LoopingResolved |
| SemanticVersions/BuildMetadata.cs:132-133 | the public `ToString` with format "b" or null calls `TrimStart` on the null text of an absent commit count | build metadata with no commit count, formatted with "b" | the "b" form of metadata without a count is null, as the private `ToString` returns | not executed | BuildMetadatas.PublicToStringAsWrittenThrows | BuildMetadatas.PublicToStringAgreement |
