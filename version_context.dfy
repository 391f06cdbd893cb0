/**
 * `HgVersionContext`, in the two layouts of the repository: the one under src/HgVersion
 * (`Current`) and the older one at the top level (`Older`). The context resolves the
 * current branch's configuration, checks that every setting the calculation needs is
 * present, projects the effective configuration, and finds the highest version among
 * the current commit's tags.
 */
module VersionContexts {
  import opened Wrappers
  import E = ConfigEnums
  import A = AssemblyVersioning
  import S = SemanticVersions
  import T = PreReleaseTags
  import P = TagPrefixes
  import MP = MetadataProviders
  import opened Commits
  import opened BranchHeads
  import opened Repositories
  import opened Configurations
  import BC = BranchConfigurations

  datatype Layout = Current | Older

  /**
   * `EffectiveConfiguration`: the settings of the current branch merged with the global
   * ones. The version filters and the base-version strategies are not part of this model;
   * `taggedCommitsLimit` is absent in the older layout, which has no such setting.
   */
  datatype EffectiveConfiguration = EffectiveConfiguration(
    assemblyVersioningScheme: A.Scheme,
    assemblyFileVersioningScheme: A.Scheme,
    assemblyInformationalFormat: Option<string>,
    versioningMode: E.VersioningMode,
    tagPrefix: Option<string>,
    tag: Option<string>,
    nextVersion: Option<string>,
    increment: E.IncrementStrategyType,
    branchPrefixToTrim: Option<string>,
    preventIncrementForMergedBranchVersion: bool,
    tagNumberPattern: Option<string>,
    continuousDeploymentFallbackTag: Option<string>,
    trackMergeTarget: bool,
    majorVersionBumpMessage: Option<string>,
    minorVersionBumpMessage: Option<string>,
    patchVersionBumpMessage: Option<string>,
    noBumpMessage: Option<string>,
    commitMessageIncrementing: E.CommitMessageIncrementMode,
    buildMetaDataPadding: int,
    commitsSinceVersionSourcePadding: int,
    tracksReleaseBranches: bool,
    isReleaseBranch: bool,
    commitDateFormat: Option<string>,
    taggedCommitsLimit: Option<int>)

  /** A setting the calculation needs, by the name its error message gives it. */
  datatype Required = Required(name: string, present: bool)

  /** The branch settings checked, in order; the older layout spells the first one out. */
  function BranchRequired(layout: Layout, b: BranchConfig): seq<Required>
  {
    [Required(if layout == Current then "VersioningMode" else "Versioning mode", b.versioningMode.Some?),
     Required("Increment", b.increment.Some?),
     Required("PreventIncrementOfMergedBranchVersion", b.preventIncrementOfMergedBranchVersion.Some?),
     Required("TrackMergeTarget", b.trackMergeTarget.Some?),
     Required("TracksReleaseBranches", b.tracksReleaseBranches.Some?),
     Required("IsReleaseBranch", b.isReleaseBranch.Some?)]
  }

  /** The global settings checked, in order; only the current layout checks the limit. */
  function GlobalRequired(layout: Layout, g: GlobalSettings): seq<Required>
  {
    [Required("AssemblyVersioningScheme", g.assemblyVersioningScheme.Some?),
     Required("AssemblyFileVersioningScheme", g.assemblyFileVersioningScheme.Some?),
     Required("CommitMessageIncrementing", g.commitMessageIncrementing.Some?),
     Required("BuildMetaDataPadding", g.buildMetaDataPadding.Some?),
     Required("CommitsSinceVersionSourcePadding", g.commitsSinceVersionSourcePadding.Some?)] +
    (if layout == Current then [Required("TaggedCommitsLimit", g.taggedCommitsLimit.Some?)] else [])
  }

  /** The name of the first setting that is missing, if any is. */
  function FirstMissing(rs: seq<Required>): (r: Option<string>)
    ensures r.None? <==> forall i :: 0 <= i < |rs| ==> rs[i].present
    ensures r.Some? ==> (exists i :: (0 <= i < |rs| && !rs[i].present && rs[i].name == r.value &&
      forall j :: 0 <= j < i ==> rs[j].present))
    decreases |rs|
  {
    if rs == [] then None
    else if !rs[0].present then Some(rs[0].name)
    else
      var r := FirstMissing(rs[1..]);
      assert forall i :: 1 <= i < |rs| ==> rs[1..][i - 1] == rs[i];
      if r.Some? then
        var i :| 0 <= i < |rs| - 1 && !rs[1..][i].present && rs[1..][i].name == r.value &&
          forall j :: 0 <= j < i ==> rs[1..][j].present;
        assert forall j :: 0 <= j < i + 1 ==> rs[j].present by {
          forall j | 0 <= j < i + 1 ensures rs[j].present {
            if j > 0 {
              assert rs[j] == rs[1..][j - 1];
            }
          }
        }
        r
      else r
  }

  lemma BranchRequiredMeans(layout: Layout, b: BranchConfig)
    ensures FirstMissing(BranchRequired(layout, b)).None? <==>
      b.versioningMode.Some? && b.increment.Some? && b.preventIncrementOfMergedBranchVersion.Some? &&
      b.trackMergeTarget.Some? && b.tracksReleaseBranches.Some? && b.isReleaseBranch.Some?
  {
    var rs := BranchRequired(layout, b);
    assert rs[0].present == b.versioningMode.Some? && rs[1].present == b.increment.Some?;
    assert rs[2].present == b.preventIncrementOfMergedBranchVersion.Some? && rs[3].present == b.trackMergeTarget.Some?;
    assert rs[4].present == b.tracksReleaseBranches.Some? && rs[5].present == b.isReleaseBranch.Some?;
  }

  lemma GlobalRequiredMeans(layout: Layout, g: GlobalSettings)
    ensures FirstMissing(GlobalRequired(layout, g)).None? <==>
      g.assemblyVersioningScheme.Some? && g.assemblyFileVersioningScheme.Some? &&
      g.commitMessageIncrementing.Some? && g.buildMetaDataPadding.Some? &&
      g.commitsSinceVersionSourcePadding.Some? && (layout == Current ==> g.taggedCommitsLimit.Some?)
  {
    var rs := GlobalRequired(layout, g);
    assert rs[0].present == g.assemblyVersioningScheme.Some? && rs[1].present == g.assemblyFileVersioningScheme.Some?;
    assert rs[2].present == g.commitMessageIncrementing.Some? && rs[3].present == g.buildMetaDataPadding.Some?;
    assert rs[4].present == g.commitsSinceVersionSourcePadding.Some?;
    if layout == Current {
      assert rs[5].present == g.taggedCommitsLimit.Some?;
    }
  }

  /**
   * `ThrowIfNull` in the current layout, and the messages the older layout writes out:
   * there a branch setting's message names the branch, a null name giving an empty one.
   */
  function MissingSetting(layout: Layout, branchLevel: bool, name: string, branch: Option<string>): Exception
  {
    if layout == Older && branchLevel then HgConfigurationException(BranchNoValue(name, branch.GetOr("")))
    else HgConfigurationException(NoValue(name))
  }

  function NoValue(name: string): string
  {
    "Configuration value for '" + name + "' has no value. (this should not happen, please report an issue)"
  }

  function BranchNoValue(name: string, branch: string): string
  {
    "Configuration value for '" + name + "' for branch " + branch + " has no value. (this should not happen, please report an issue)"
  }

  /** Every checked setting is present, said field by field. */
  predicate Complete(layout: Layout, b: BranchConfig, g: GlobalSettings)
  {
    b.versioningMode.Some? && b.increment.Some? && b.preventIncrementOfMergedBranchVersion.Some? &&
    b.trackMergeTarget.Some? && b.tracksReleaseBranches.Some? && b.isReleaseBranch.Some? &&
    g.assemblyVersioningScheme.Some? && g.assemblyFileVersioningScheme.Some? &&
    g.commitMessageIncrementing.Some? && g.buildMetaDataPadding.Some? &&
    g.commitsSinceVersionSourcePadding.Some? &&
    (layout == Current ==> g.taggedCommitsLimit.Some?)
  }

  /**
   * `CalculateEffectiveConfiguration`, once the branch configuration is resolved: the
   * branch settings are checked, then the global ones, the first missing one throws,
   * and otherwise each setting is taken from the branch or from the globals.
   */
  function EffectiveConfigurationOf(layout: Layout, b: BranchConfig, g: GlobalSettings): (r: Result<EffectiveConfiguration>)
    ensures r.Ok? <==> Complete(layout, b, g)
    ensures r.Ok? ==> var e := r.value;
      Some(e.versioningMode) == b.versioningMode && Some(e.increment) == b.increment &&
      Some(e.preventIncrementForMergedBranchVersion) == b.preventIncrementOfMergedBranchVersion &&
      Some(e.trackMergeTarget) == b.trackMergeTarget && Some(e.tracksReleaseBranches) == b.tracksReleaseBranches &&
      Some(e.isReleaseBranch) == b.isReleaseBranch && e.tag == b.tag && e.tagNumberPattern == b.tagNumberPattern &&
      e.branchPrefixToTrim == b.regex
    ensures r.Ok? ==> var e := r.value;
      Some(e.assemblyVersioningScheme) == g.assemblyVersioningScheme &&
      Some(e.assemblyFileVersioningScheme) == g.assemblyFileVersioningScheme &&
      Some(e.buildMetaDataPadding) == g.buildMetaDataPadding &&
      Some(e.commitsSinceVersionSourcePadding) == g.commitsSinceVersionSourcePadding &&
      e.tagPrefix == g.tagPrefix && e.nextVersion == g.nextVersion &&
      e.assemblyInformationalFormat == g.assemblyInformationalFormat &&
      e.continuousDeploymentFallbackTag == g.continuousDeploymentFallbackTag &&
      e.majorVersionBumpMessage == g.majorVersionBumpMessage && e.minorVersionBumpMessage == g.minorVersionBumpMessage &&
      e.patchVersionBumpMessage == g.patchVersionBumpMessage && e.noBumpMessage == g.noBumpMessage &&
      e.commitDateFormat == g.commitDateFormat
    ensures r.Ok? ==> (Some(r.value.commitMessageIncrementing) ==
      if b.commitMessageIncrementing.Some? then b.commitMessageIncrementing else g.commitMessageIncrementing)
    ensures r.Ok? ==> r.value.taggedCommitsLimit == (if layout == Current then g.taggedCommitsLimit else None)
  {
    BranchRequiredMeans(layout, b);
    GlobalRequiredMeans(layout, g);
    match FirstMissing(BranchRequired(layout, b))
    case Some(name) => Err(MissingSetting(layout, true, name, b.name))
    case None =>
      match FirstMissing(GlobalRequired(layout, g))
      case Some(name) => Err(MissingSetting(layout, false, name, None))
      case None =>
        Ok(EffectiveConfiguration(
          g.assemblyVersioningScheme.value, g.assemblyFileVersioningScheme.value, g.assemblyInformationalFormat,
          b.versioningMode.value, g.tagPrefix, b.tag, g.nextVersion, b.increment.value, b.regex,
          b.preventIncrementOfMergedBranchVersion.value, b.tagNumberPattern, g.continuousDeploymentFallbackTag,
          b.trackMergeTarget.value, g.majorVersionBumpMessage, g.minorVersionBumpMessage,
          g.patchVersionBumpMessage, g.noBumpMessage,
          if b.commitMessageIncrementing.Some? then b.commitMessageIncrementing.value else g.commitMessageIncrementing.value,
          g.buildMetaDataPadding.value, g.commitsSinceVersionSourcePadding.value,
          b.tracksReleaseBranches.value, b.isReleaseBranch.value, g.commitDateFormat,
          if layout == Current then g.taggedCommitsLimit else None))
  }

  /**
   * The rest of `Enumerable.Max` after its first element: a later element replaces the
   * maximum so far only when it compares above it, so of several equal ones the first stays.
   */
  function MaxFrom(m: S.SemanticVersion, rest: seq<S.SemanticVersion>): (r: S.SemanticVersion)
    ensures r == m || r in rest
    ensures S.CompareTo(m, Some(r)) <= 0
    ensures forall v :: v in rest ==> S.CompareTo(v, Some(r)) <= 0
    decreases |rest|
  {
    if rest == [] then
      S.CompareToZero(m, m);
      m
    else
      var x := rest[0];
      var next := if S.CompareTo(x, Some(m)) > 0 then x else m;
      var r := MaxFrom(next, rest[1..]);
      assert forall v :: v in rest ==> v == x || v in rest[1..];
      if S.CompareTo(x, Some(m)) > 0 then
        S.CompareToAsymmetric(x, m);
        S.CompareToTransitive(m, x, r);
        r
      else
        S.CompareToTransitive(x, m, r);
        r
  }

  /**
   * `Enumerable.Max` over versions that are never null: no element compares above the
   * result, which is one of them; an empty sequence gives null.
   */
  function MaxVersion(vs: seq<S.SemanticVersion>): (r: Option<S.SemanticVersion>)
    ensures r.None? <==> vs == []
    ensures r.Some? ==> r.value in vs
    ensures r.Some? ==> forall v :: v in vs ==> S.CompareTo(v, r) <= 0
  {
    if vs == [] then None
    else
      assert forall v :: v in vs ==> v == vs[0] || v in vs[1..];
      Some(MaxFrom(vs[0], vs[1..]))
  }

  /** One step of the fold: the maximum of so far and a later element. */
  function MaxStep(m: Option<S.SemanticVersion>, x: S.SemanticVersion): S.SemanticVersion
  {
    if m.None? || S.CompareTo(x, m) > 0 then x else m.value
  }

  lemma {:induction false} MaxFromAppend(m: S.SemanticVersion, rest: seq<S.SemanticVersion>, x: S.SemanticVersion)
    ensures MaxFrom(m, rest + [x]) == MaxStep(Some(MaxFrom(m, rest)), x)
    decreases |rest|
  {
    if rest == [] {
      assert [] + [x] == [x];
      assert [x][1..] == [];
    } else {
      var next := if S.CompareTo(rest[0], Some(m)) > 0 then rest[0] else m;
      assert (rest + [x])[0] == rest[0];
      assert (rest + [x])[1..] == rest[1..] + [x];
      MaxFromAppend(next, rest[1..], x);
    }
  }

  /** The maximum of a sequence with one more element: that element wins only by comparing above. */
  lemma MaxVersionAppend(vs: seq<S.SemanticVersion>, x: S.SemanticVersion)
    ensures MaxVersion(vs + [x]) == Some(MaxStep(MaxVersion(vs), x))
  {
    if vs != [] {
      assert (vs + [x])[0] == vs[0];
      assert (vs + [x])[1..] == vs[1..] + [x];
      MaxFromAppend(vs[0], vs[1..], x);
    } else {
      assert [] + [x] == [x];
    }
  }

  /** `CalculateCurrentCommitTaggedVersion`: the maximum of the tags that parse with the prefix. */
  function TaggedVersion(tags: seq<string>, prefixes: seq<string>): (r: Option<S.SemanticVersion>)
    ensures r.None? <==> forall t :: t in tags ==> S.TryParse(t, prefixes).None?
    ensures r.Some? ==> exists t :: t in tags && S.TryParse(t, prefixes) == r
    ensures forall t :: t in tags && S.TryParse(t, prefixes).Some? ==> S.CompareTo(S.TryParse(t, prefixes).value, r) <= 0
  {
    var vs := MP.ParsedTags(tags, prefixes);
    var r := MaxVersion(vs);
    forall t | t in tags && S.TryParse(t, prefixes).Some?
      ensures S.TryParse(t, prefixes).value in vs && S.CompareTo(S.TryParse(t, prefixes).value, r) <= 0
    {
      assert S.TryParse(t, prefixes).value in vs;
    }
    r
  }

  /**
   * The state of a context once constructed. Every property is read-only; the constructor
   * sets them in the order the source does.
   */
  class VersionContext {
    const layout: Layout
    const repository: Repository
    const currentBranch: BranchHead
    const currentCommit: Commit
    const fullConfiguration: GlobalSettings
    const repositoryMetadataProvider: MP.MetadataProvider
    const configuration: EffectiveConfiguration
    const currentCommitTaggedVersion: Option<S.SemanticVersion>
    const isCurrentCommitTagged: bool

    /** The part of the constructor that runs once the effective configuration is known. */
    constructor(layout: Layout, ctx: BC.Context, configuration: EffectiveConfiguration)
      ensures this.layout == layout && repository == ctx.repository
      ensures currentBranch == ctx.repository.currentBranch && currentCommit == ctx.repository.currentCommit
      ensures fullConfiguration == ctx.globals && this.configuration == configuration
      ensures fresh(repositoryMetadataProvider) && repositoryMetadataProvider.repository == ctx.repository
      ensures currentCommitTaggedVersion == TaggedVersion(currentCommit.tags, P.Alternatives(configuration.tagPrefix))
      ensures isCurrentCommitTagged <==> currentCommitTaggedVersion.Some?
    {
      this.layout := layout;
      repository := ctx.repository;
      currentBranch := ctx.repository.currentBranch;
      currentCommit := ctx.repository.currentCommit;
      fullConfiguration := ctx.globals;
      repositoryMetadataProvider := new MP.MetadataProvider(ctx.repository);
      this.configuration := configuration;
      var tagged := TaggedVersion(ctx.repository.currentCommit.tags, P.Alternatives(configuration.tagPrefix));
      currentCommitTaggedVersion := tagged;
      isCurrentCommitTagged := tagged != None;
    }
  }

  /** What constructing a context computes, as a value: its effective configuration or the exception. */
  function Effective(layout: Layout, ctx: BC.Context): (r: Result<EffectiveConfiguration>)
    ensures r.Ok? ==> r.value.increment != E.Inherit
  {
    match BC.Get(ctx, ctx.repository.currentBranch, None).config
    case Err(e) => Err(e)
    case Ok(b) => EffectiveConfigurationOf(layout, b, ctx.globals)
  }

  /**
   * `new HgVersionContext(repository)`, with the repository read and the configuration
   * provided: the exception it throws, or the new context.
   */
  method NewVersionContext(layout: Layout, ctx: BC.Context) returns (r: Result<VersionContext>)
    ensures r.Err? <==> Effective(layout, ctx).Err?
    ensures r.Err? ==> r.error == Effective(layout, ctx).error
    ensures r.Ok? ==> (fresh(r.value) && r.value.layout == layout && r.value.repository == ctx.repository &&
      r.value.fullConfiguration == ctx.globals && r.value.configuration == Effective(layout, ctx).value)
    ensures r.Ok? ==> (r.value.currentBranch == ctx.repository.currentBranch &&
      r.value.currentCommit == ctx.repository.currentCommit)
    ensures r.Ok? ==> (fresh(r.value.repositoryMetadataProvider) &&
      r.value.repositoryMetadataProvider.repository == ctx.repository)
    ensures r.Ok? ==> (r.value.currentCommitTaggedVersion ==
      TaggedVersion(ctx.repository.currentCommit.tags, P.Alternatives(ctx.globals.tagPrefix)))
    ensures r.Ok? ==> (r.value.isCurrentCommitTagged <==> r.value.currentCommitTaggedVersion.Some?)
  {
    var branch := BC.GetBranchConfiguration(ctx, ctx.repository.currentBranch, null);
    if branch.Err? {
      return Err(branch.error);
    }
    var e := EffectiveConfigurationOf(layout, branch.value, ctx.globals);
    if e.Err? {
      return Err(e.error);
    }
    var c := new VersionContext(layout, ctx, e.value);
    return Ok(c);
  }

  /**
   * The exception names the first missing branch setting and the branch, or else the
   * first missing global setting.
   */
  lemma EffectiveErrors(layout: Layout, b: BranchConfig, g: GlobalSettings)
    ensures var r := EffectiveConfigurationOf(layout, b, g);
      (FirstMissing(BranchRequired(layout, b)).Some? ==>
        r == Err(MissingSetting(layout, true, FirstMissing(BranchRequired(layout, b)).value, b.name))) &&
      (FirstMissing(BranchRequired(layout, b)).None? && FirstMissing(GlobalRequired(layout, g)).Some? ==>
        r == Err(MissingSetting(layout, false, FirstMissing(GlobalRequired(layout, g)).value, None)))
  {
  }

  /** A branch whose own configuration does not inherit is checked and projected as it is. */
  lemma NonInheritingBranch(layout: Layout, ctx: BC.Context)
    requires !BC.InheritsIncrement(BC.MatchingConfig(ctx, ctx.repository.currentBranch))
    ensures Effective(layout, ctx) == EffectiveConfigurationOf(layout, BC.MatchingConfig(ctx, ctx.repository.currentBranch), ctx.globals)
  {
  }

  /** With every setting present, the layouts agree except that only the current one keeps the limit. */
  lemma LayoutsAgree(b: BranchConfig, g: GlobalSettings)
    requires Complete(Current, b, g)
    ensures EffectiveConfigurationOf(Older, b, g) == Ok(EffectiveConfigurationOf(Current, b, g).value.(taggedCommitsLimit := None))
  {
  }

  /** The first setting missing in a list whose first setting is missing. */
  lemma FirstMissingHead(rs: seq<Required>)
    requires rs != [] && !rs[0].present
    ensures FirstMissing(rs) == Some(rs[0].name)
  {
  }

  /** The first setting missing after some that are present. */
  lemma FirstMissingAfter(p: seq<Required>, rs: seq<Required>)
    requires forall i :: 0 <= i < |p| ==> p[i].present
    ensures FirstMissing(p + rs) == FirstMissing(rs)
    decreases |p|
  {
    if p != [] {
      assert (p + rs)[1..] == p[1..] + rs;
      FirstMissingAfter(p[1..], rs);
    } else {
      assert p + rs == rs;
    }
  }

  /** Without a limit, and with every other global setting, the limit is the one missing. */
  lemma LimitFirstMissing(g: GlobalSettings)
    requires FirstMissing(GlobalRequired(Older, g)).None? && g.taggedCommitsLimit.None?
    ensures FirstMissing(GlobalRequired(Current, g)) == Some("TaggedCommitsLimit")
  {
    var q := [Required("TaggedCommitsLimit", false)];
    assert GlobalRequired(Current, g) == GlobalRequired(Older, g) + q;
    FirstMissingAfter(GlobalRequired(Older, g), q);
    FirstMissingHead(q);
  }

  /** The current layout refuses a configuration without a tagged-commits limit, which the older one accepts. */
  lemma MissingLimit(b: BranchConfig, g: GlobalSettings)
    requires Complete(Older, b, g) && g.taggedCommitsLimit.None?
    ensures EffectiveConfigurationOf(Older, b, g).Ok?
    ensures EffectiveConfigurationOf(Current, b, g) ==
      Err(HgConfigurationException(NoValue("TaggedCommitsLimit")))
  {
    BranchRequiredMeans(Current, b);
    GlobalRequiredMeans(Older, g);
    LimitFirstMissing(g);
    EffectiveErrors(Current, b, g);
  }

  /** A missing versioning mode is reported first, under its property name in the current layout. */
  lemma MissingVersioningMode(b: BranchConfig, g: GlobalSettings)
    requires b.versioningMode.None?
    ensures EffectiveConfigurationOf(Current, b, g) ==
      Err(HgConfigurationException(NoValue("VersioningMode")))
  {
    FirstMissingHead(BranchRequired(Current, b));
    EffectiveErrors(Current, b, g);
  }

  /** In the older layout the message spells the setting out and names the branch, a null name giving an empty one. */
  lemma MissingVersioningModeOlder(b: BranchConfig, g: GlobalSettings)
    requires b.versioningMode.None?
    ensures EffectiveConfigurationOf(Older, b, g) ==
      Err(HgConfigurationException(BranchNoValue("Versioning mode", b.name.GetOr(""))))
  {
    FirstMissingHead(BranchRequired(Older, b));
    EffectiveErrors(Older, b, g);
  }

  /**
   * A defaulted configuration passes the checks of the older layout; the current layout
   * also needs the tagged-commits limit, which the defaults do not fill in.
   */
  lemma DefaultedPasses(b: BranchConfig, g: GlobalSettings)
    requires Filled(b) && b.versioningMode.Some?
    ensures EffectiveConfigurationOf(Older, b, DefaultGlobals(g)).Ok?
    ensures EffectiveConfigurationOf(Current, b, DefaultGlobals(g)).Ok? <==> g.taggedCommitsLimit.Some?
  {
    DefaultGlobalsKeepsAndFills(g);
  }

  /** A tag is folded into the maximum in the order tags are stored; one that does not parse changes nothing. */
  lemma {:induction false} TaggedVersionAppend(tags: seq<string>, t: string, prefixes: seq<string>)
    ensures TaggedVersion(tags + [t], prefixes) ==
      match S.TryParse(t, prefixes)
      case None => TaggedVersion(tags, prefixes)
      case Some(v) => Some(MaxStep(TaggedVersion(tags, prefixes), v))
  {
    MP.ParsedTagsAppend(tags, [t], prefixes);
    assert [t][1..] == [];
    var vs := MP.ParsedTags(tags, prefixes);
    match S.TryParse(t, prefixes)
    case None =>
      assert MP.ParsedTags([t], prefixes) == [];
      assert vs + [] == vs;
    case Some(v) =>
      assert MP.ParsedTags([t], prefixes) == [v];
      MaxVersionAppend(vs, v);
  }

  /**
   * 1.0.0-Beta and 1.0.0-beta: neither compares above the other, so the maximum is the
   * one that comes first, whichever that is.
   */
  lemma CaseOnlyTagsKeepFirst()
    ensures var a, b := S.New(1, 0, 0).(tag := T.PreReleaseTag(Some("Beta"), None)),
                        S.New(1, 0, 0).(tag := T.PreReleaseTag(Some("beta"), None));
      MaxVersion([a, b]) == Some(a) && MaxVersion([b, a]) == Some(b)
  {
    var a, b := S.New(1, 0, 0).(tag := T.PreReleaseTag(Some("Beta"), None)),
                S.New(1, 0, 0).(tag := T.PreReleaseTag(Some("beta"), None));
    S.CompareToCaseOnlyTags();
    assert [a, b][1..] == [b] && [b][1..] == [];
    assert [b, a][1..] == [a] && [a][1..] == [];
  }
}
