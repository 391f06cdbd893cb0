/**
 * `VersionVariablesBuilder`: the output variables derived from one semantic
 * version, and `Build`, which copies them into a `VersionVariables` record. A null
 * C# string is `None`.
 */
module VersionVariablesBuilders {
  import opened Wrappers
  import opened Text
  import T = PreReleaseTags
  import B = BuildMetadatas
  import S = SemanticVersions
  import A = AssemblyVersioning
  import BR = BuildMetadataRoundTrip
  import SR = SemanticVersionRoundTrip

  /** `VersionVariables`; `CommitDate` keeps the moment instead of its culture-formatted text. */
  datatype VersionVariables = VersionVariables(
    major: string, minor: string, patch: string,
    preReleaseTag: Option<string>, preReleaseTagWithDash: Option<string>,
    preReleaseLabel: Option<string>, preReleaseNumber: Option<string>,
    buildMetadata: Option<string>, buildMetadataPadded: string, fullBuildMetadata: string,
    majorMinorPatch: string, semVer: string, assemblySemVer: string, assemblyFileSemVer: string,
    fullSemVer: string, informationalVersion: string,
    branchName: Option<string>, sha: Option<string>, commitDate: nat,
    nuGetVersion: string, nuGetPreReleaseTag: Option<string>, commitsSinceVersionSource: string)

  /** `n.ToString()`: decimal digits that read back as `n`. */
  function Decimal(n: nat): (r: string)
    ensures r != [] && AllDigits(r) && DigitsValue(r) == n
  {
    NatToStringRoundTrip(n);
    NatToString(n)
  }

  function Major(v: S.SemanticVersion): (r: string)
    ensures AllDigits(r) && DigitsValue(r) == v.major
  {
    Decimal(v.major)
  }

  function Minor(v: S.SemanticVersion): (r: string)
    ensures AllDigits(r) && DigitsValue(r) == v.minor
  {
    Decimal(v.minor)
  }

  function Patch(v: S.SemanticVersion): (r: string)
    ensures AllDigits(r) && DigitsValue(r) == v.patch
  {
    Decimal(v.patch)
  }

  /** The tag through its implicit string conversion, so the tag's "t" text. */
  function PreReleaseTag(v: S.SemanticVersion): (r: Option<string>)
    ensures T.ToString(v.tag, None) == Ok(r)
    ensures !v.tag.IsNull() ==> r.Some? && r.value != []
    ensures SR.TagInvertible(v.tag) && !v.tag.IsNull() ==> T.Parse(r) == v.tag
  {
    assert SR.TagInvertible(v.tag) && !v.tag.IsNull() ==> T.Parse(T.TagText(v.tag)) == v.tag by {
      if SR.TagInvertible(v.tag) && !v.tag.IsNull() { T.TagTextRoundTrip(v.tag); }
    }
    T.ToString(v.tag, None).value
  }

  /** `-` and the tag text, or null for the null tag: what "s" adds after the core. */
  function PreReleaseTagWithDash(v: S.SemanticVersion): (r: Option<string>)
    ensures r.None? <==> v.tag.IsNull()
    ensures r.Some? ==> r.value != [] && r.value[0] == '-' && Some(r.value[1..]) == PreReleaseTag(v)
    ensures S.TaggedText(v) == S.CoreText(v) + r.GetOr([])
  {
    if v.tag.IsNull() then None else Some("-" + PreReleaseTag(v).value)
  }

  /** The tag name, or null for the null tag. */
  function PreReleaseLabel(v: S.SemanticVersion): (r: Option<string>)
    ensures r.None? <==> v.tag.IsNull()
    ensures r.Some? ==> r == v.tag.name && r.value != []
  {
    if v.tag.IsNull() then None else v.tag.name
  }

  /** The tag number's text, "" when the number is absent, or null for the null tag. */
  function PreReleaseNumber(v: S.SemanticVersion): (r: Option<string>)
    ensures r.None? <==> v.tag.IsNull()
    ensures r.Some? && v.tag.number.None? ==> r.value == ""
    ensures r.Some? && v.tag.number.Some? ==> r.value != [] && AllDigits(r.value) && DigitsValue(r.value) == v.tag.number.value
  {
    if v.tag.IsNull() then None
    else if v.tag.number.None? then Some("")
    else Some(Decimal(v.tag.number.value))
  }

  /** The metadata through its implicit string conversion: the count, or null without one. */
  function BuildMetadata(v: S.SemanticVersion): (r: Option<string>)
    ensures r.None? <==> v.meta.commitsSinceTag.None?
    ensures r.Some? ==> r.value != [] && AllDigits(r.value) && DigitsValue(r.value) == v.meta.commitsSinceTag.value
  {
    B.ToStringDefault(v.meta)
  }

  /** "p4": the count padded to at least four digits, or "" without one. */
  function BuildMetadataPadded(v: S.SemanticVersion): (r: string)
    ensures v.meta.commitsSinceTag.None? ==> r == ""
    ensures v.meta.commitsSinceTag.Some? ==>
      |r| >= 4 && AllDigits(r) && DigitsValue(r) == v.meta.commitsSinceTag.value
  {
    B.FourDigitFormat(v.meta);
    B.PublicToString(v.meta, Some("p4")).value.value
  }

  /** "f": the full metadata text, which parses back to equal metadata when that is unambiguous. */
  function FullBuildMetadata(v: S.SemanticVersion): (r: string)
    ensures r == TrimStart(B.FullText(v.meta), '.')
    ensures BR.FullFormatInvertible(v.meta) ==> B.Parse(Some(r)).Equals(Some(v.meta))
  {
    B.FullFormat(v.meta);
    if BR.FullFormatInvertible(v.meta) then
      BR.FullTextRoundTrip(v.meta);
      B.PublicToString(v.meta, Some("f")).value.value
    else B.PublicToString(v.meta, Some("f")).value.value
  }

  /** `$"{Major}.{Minor}.{Patch}"`, the "j" format. */
  function MajorMinorPatch(v: S.SemanticVersion): (r: string)
    ensures S.ToString(v, Some("j")) == Ok(r)
    ensures r == Major(v) + "." + Minor(v) + "." + Patch(v)
  {
    S.CoreText(v)
  }

  /** The MajorMinorPatch assembly scheme: "M.m.p.0". */
  function AssemblySemVer(v: S.SemanticVersion): (r: string)
    ensures A.GetAssemblyVersion(v, A.MajorMinorPatch) == Ok(Some(r))
    ensures r == MajorMinorPatch(v) + ".0"
  {
    A.MajorMinorPatchIsCoreText(v);
    A.GetAssemblyVersion(v, A.MajorMinorPatch).value.value
  }

  /** `ToString()`, which is "s": the core and the dashed tag. */
  function SemVer(v: S.SemanticVersion): (r: string)
    ensures S.ToString(v, Some("s")) == Ok(r)
    ensures r == MajorMinorPatch(v) + PreReleaseTagWithDash(v).GetOr([])
  {
    S.ToString(v, None).value
  }

  /** "f": `SemVer`, then `+` and the count when there is one. */
  function FullSemVer(v: S.SemanticVersion): (r: string)
    ensures S.ToString(v, Some("f")) == Ok(r)
    ensures v.meta.commitsSinceTag.None? ==> r == SemVer(v)
    ensures v.meta.commitsSinceTag.Some? ==> r == SemVer(v) + "+" + BuildMetadata(v).value
  {
    S.ToString(v, Some("f")).value
  }

  /** "i": `SemVer`, then `+` and the full metadata unless it is empty. */
  function InformationalVersion(v: S.SemanticVersion): (r: string)
    ensures S.ToString(v, Some("i")) == Ok(r)
    ensures r == S.WithMetadata(SemVer(v), Some(FullBuildMetadata(v)))
  {
    InformationalFormat(v);
    S.ToString(v, Some("i")).value
  }

  lemma InformationalFormat(v: S.SemanticVersion)
    ensures S.ToString(v, Some("i")) == Ok(S.WithMetadata(S.TaggedText(v), Some(FullBuildMetadata(v))))
  {
    S.InformationalFormatText(v);
  }

  /** The informational version parses back to a fully equal version when its parts are unambiguous. */
  lemma InformationalVersionRoundTrip(v: S.SemanticVersion)
    requires SR.InformationalInvertible(v)
    ensures var p := S.TryParse(InformationalVersion(v), []); p.Some? && S.FullEqual(p.value, v)
  {
    SR.InformationalRoundTrip(v);
  }

  /** "t", the same text as "s". */
  function NuGetVersion(v: S.SemanticVersion): (r: string)
    ensures S.ToString(v, Some("t")) == Ok(r)
    ensures r == SemVer(v)
  {
    S.ToString(v, Some("t")).value
  }

  /** The lower-cased "t" text of the tag, or null for the null tag. */
  function NuGetPreReleaseTag(v: S.SemanticVersion): (r: Option<string>)
    ensures r.None? <==> v.tag.IsNull()
    ensures r.Some? ==> r.value == ToLower(PreReleaseTag(v).value) && EqualsIgnoreCase(r.value, PreReleaseTag(v).value)
  {
    if v.tag.IsNull() then None else Some(ToLower(T.ToString(v.tag, Some("t")).value.value))
  }

  /** `CommitsSinceVersionSource.ToString()`. */
  function CommitsSinceVersionSource(v: S.SemanticVersion): (r: string)
    ensures AllDigits(r) && DigitsValue(r) == v.meta.commitsSinceVersionSource
  {
    Decimal(v.meta.commitsSinceVersionSource)
  }

  /** `Build()`: every derived property, copied under its own name. */
  function Build(v: S.SemanticVersion): (r: VersionVariables)
    ensures r.major == Major(v) && r.minor == Minor(v) && r.patch == Patch(v)
    ensures r.preReleaseTag == PreReleaseTag(v) && r.preReleaseTagWithDash == PreReleaseTagWithDash(v)
    ensures r.preReleaseLabel == PreReleaseLabel(v) && r.preReleaseNumber == PreReleaseNumber(v)
    ensures r.buildMetadata == BuildMetadata(v) && r.buildMetadataPadded == BuildMetadataPadded(v)
    ensures r.fullBuildMetadata == FullBuildMetadata(v)
    ensures r.branchName == v.meta.branch && r.sha == v.meta.sha && r.commitDate == v.meta.commitDate
    ensures r.commitsSinceVersionSource == CommitsSinceVersionSource(v)
    ensures r.assemblySemVer == AssemblySemVer(v) && r.assemblyFileSemVer == AssemblySemVer(v)
    ensures r.majorMinorPatch == MajorMinorPatch(v) && r.semVer == SemVer(v) && r.fullSemVer == FullSemVer(v)
    ensures r.informationalVersion == InformationalVersion(v)
    ensures r.nuGetVersion == NuGetVersion(v) && r.nuGetPreReleaseTag == NuGetPreReleaseTag(v)
  {
    VersionVariables(
      Major(v), Minor(v), Patch(v),
      PreReleaseTag(v), PreReleaseTagWithDash(v), PreReleaseLabel(v), PreReleaseNumber(v),
      BuildMetadata(v), BuildMetadataPadded(v), FullBuildMetadata(v),
      MajorMinorPatch(v), SemVer(v), AssemblySemVer(v), AssemblySemVer(v),
      FullSemVer(v), InformationalVersion(v),
      v.meta.branch, v.meta.sha, v.meta.commitDate,
      NuGetVersion(v), NuGetPreReleaseTag(v), CommitsSinceVersionSource(v))
  }

  /** How the variables of one build relate to each other. */
  predicate Consistent(r: VersionVariables)
  {
    r.majorMinorPatch == r.major + "." + r.minor + "." + r.patch &&
    r.semVer == r.majorMinorPatch + r.preReleaseTagWithDash.GetOr([]) &&
    r.nuGetVersion == r.semVer &&
    r.assemblySemVer == r.majorMinorPatch + ".0" && r.assemblyFileSemVer == r.assemblySemVer &&
    r.fullSemVer == S.WithMetadata(r.semVer, r.buildMetadata) &&
    r.informationalVersion == S.WithMetadata(r.semVer, Some(r.fullBuildMetadata)) &&
    (r.preReleaseTagWithDash.None? <==> r.preReleaseLabel.None?) &&
    (r.preReleaseLabel.None? <==> r.preReleaseNumber.None?) &&
    (r.preReleaseNumber.None? <==> r.nuGetPreReleaseTag.None?)
  }

  /** The built variables agree with one another, and the pre-release ones are null together, exactly for the null tag. */
  lemma BuildIsConsistent(v: S.SemanticVersion)
    ensures Consistent(Build(v))
    ensures Build(v).preReleaseLabel.None? <==> v.tag.IsNull()
  {
  }
}
