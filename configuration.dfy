/** The enums the configuration holds. */
module ConfigEnums {
  /** `IncrementStrategyType`. */
  datatype IncrementStrategyType = None | Major | Minor | Patch | Inherit

  /** `VersioningMode`. */
  datatype VersioningMode = ContinuousDelivery | ContinuousDeployment | Mainline

  /** `CommitMessageIncrementMode`. */
  datatype CommitMessageIncrementMode = Enabled | Disabled | MergeMessageOnly
}

/**
 * `HgConfigurationProvider`: verification of a read configuration, the defaults
 * filled into it in place, and the command-line overrides. A `Config` keeps its
 * branch dictionary as a map together with the order in which keys were added,
 * which is the order the dictionary enumerates them in.
 */
module Configurations {
  import opened Wrappers
  import opened Text
  import E = ConfigEnums
  import A = AssemblyVersioning

  const DefaultTagPrefix := "[vV]"
  const ReleaseBranchRegex := "releases?[/-]"
  const FeatureBranchRegex := "features?[/-]"
  const PullRequestRegex := @"(pull|pull\-requests|pr)[/-]"
  const HotfixBranchRegex := "hotfix(es)?[/-]"
  const SupportBranchRegex := "support[/-]"
  const DevelopBranchRegex := "dev(elop)?(ment)?$"
  const DefaultBranchRegex := "default$"
  const DefaultBranchKey := "default"
  const ReleaseBranchKey := "release"
  const FeatureBranchKey := "feature"
  const PullRequestBranchKey := "pull-request"
  const HotfixBranchKey := "hotfix"
  const SupportBranchKey := "support"
  const DevelopBranchKey := "develop"
  const DefaultIncrementStrategy := E.Inherit

  /** The commit-message bump patterns of the `IncrementStrategy` the configuration library defines. */
  const DefaultMajorPattern := @"\+semver:\s?(breaking|major)"
  const DefaultMinorPattern := @"\+semver:\s?(feature|minor)"
  const DefaultPatchPattern := @"\+semver:\s?(fix|patch)"
  const DefaultNoBumpPattern := @"\+semver:\s?(none|skip)"

  const MainlineBranchMessage :=
    "Mainline mode only works at the repository level, a single branch cannot be put into mainline mode\n\n" +
    "This is because mainline mode treats your entire Mercurial repository as an event source with each merge into the 'mainline' incrementing the version."

  /** `BranchConfig`: every setting may be null (`None`) until defaults fill it. */
  datatype BranchConfig = BranchConfig(
    name: Option<string>,
    regex: Option<string>,
    sourceBranches: Option<seq<string>>,
    isSourceBranchFor: Option<seq<string>>,
    tag: Option<string>,
    tagNumberPattern: Option<string>,
    increment: Option<E.IncrementStrategyType>,
    preventIncrementOfMergedBranchVersion: Option<bool>,
    trackMergeTarget: Option<bool>,
    versioningMode: Option<E.VersioningMode>,
    tracksReleaseBranches: Option<bool>,
    isReleaseBranch: Option<bool>,
    isMainline: Option<bool>,
    commitMessageIncrementing: Option<E.CommitMessageIncrementMode>)

  /** `new BranchConfig { Name = name }`. */
  function NewBranchConfig(name: string): BranchConfig
  {
    BranchConfig(Some(name), None, None, None, None, None, None, None, None, None, None, None, None, None)
  }

  /** The optional arguments of `ApplyBranchDefaults`. */
  datatype BranchDefaults = BranchDefaults(
    tag: string,
    increment: Option<E.IncrementStrategyType>,
    preventIncrement: bool,
    versioningMode: Option<E.VersioningMode>,
    trackMergeTarget: bool,
    tagNumberPattern: Option<string>,
    tracksReleaseBranches: bool,
    isReleaseBranch: bool,
    isMainline: bool)

  /** The default values of those arguments. */
  const NoDefaults := BranchDefaults("useBranchName", None, false, None, false, None, false, false, false)

  predicate NullOrEmpty(s: Option<string>)
  {
    s.None? || s.value == []
  }

  /** `a ?? b`. */
  function Or<T>(a: Option<T>, b: T): T
  {
    if a.Some? then a.value else b
  }

  /** Every non-null setting of `b` survives into `r`, apart from the regex and the source branches. */
  predicate KeepsUserValues(b: BranchConfig, r: BranchConfig)
  {
    r.name == b.name && r.isSourceBranchFor == b.isSourceBranchFor &&
    r.commitMessageIncrementing == b.commitMessageIncrementing &&
    (b.tag.Some? ==> r.tag == b.tag) &&
    (b.tagNumberPattern.Some? ==> r.tagNumberPattern == b.tagNumberPattern) &&
    (b.increment.Some? ==> r.increment == b.increment) &&
    (b.preventIncrementOfMergedBranchVersion.Some? ==> r.preventIncrementOfMergedBranchVersion == b.preventIncrementOfMergedBranchVersion) &&
    (b.trackMergeTarget.Some? ==> r.trackMergeTarget == b.trackMergeTarget) &&
    (b.versioningMode.Some? ==> r.versioningMode == b.versioningMode) &&
    (b.tracksReleaseBranches.Some? ==> r.tracksReleaseBranches == b.tracksReleaseBranches) &&
    (b.isReleaseBranch.Some? ==> r.isReleaseBranch == b.isReleaseBranch) &&
    (b.isMainline.Some? ==> r.isMainline == b.isMainline)
  }

  /** The settings the effective configuration requires, all present. */
  predicate Filled(r: BranchConfig)
  {
    r.regex.Some? && r.sourceBranches.Some? && r.tag.Some? && r.increment.Some? &&
    r.preventIncrementOfMergedBranchVersion.Some? && r.trackMergeTarget.Some? &&
    r.tracksReleaseBranches.Some? && r.isReleaseBranch.Some? && r.isMainline.Some?
  }

  /**
   * `ApplyBranchDefaults`: a null or empty regex becomes `branchRegex`, the source
   * branches are always replaced, and every other null setting takes its default;
   * Increment falls back to the argument, then `config.Increment`, then Inherit, and
   * the mode to the argument, then `config.VersioningMode`.
   */
  function ApplyBranchDefaults(configIncrement: Option<E.IncrementStrategyType>, configMode: Option<E.VersioningMode>,
                               b: BranchConfig, branchRegex: string, sourceBranches: seq<string>, d: BranchDefaults): (r: BranchConfig)
    ensures r.regex == (if NullOrEmpty(b.regex) then Some(branchRegex) else b.regex)
    ensures r.sourceBranches == Some(sourceBranches)
    ensures b.tag.None? ==> r.tag == Some(d.tag)
    ensures b.increment.None? ==> r.increment == Some(Or(d.increment, Or(configIncrement, DefaultIncrementStrategy)))
    ensures b.versioningMode.None? ==> r.versioningMode == (if d.versioningMode.Some? then d.versioningMode else configMode)
    ensures b.preventIncrementOfMergedBranchVersion.None? ==> r.preventIncrementOfMergedBranchVersion == Some(d.preventIncrement)
    ensures b.isMainline.None? ==> r.isMainline == Some(d.isMainline)
  {
    BranchConfig(
      b.name,
      if NullOrEmpty(b.regex) then Some(branchRegex) else b.regex,
      Some(sourceBranches),
      b.isSourceBranchFor,
      Some(Or(b.tag, d.tag)),
      if b.tagNumberPattern.Some? then b.tagNumberPattern else d.tagNumberPattern,
      Some(Or(b.increment, Or(d.increment, Or(configIncrement, DefaultIncrementStrategy)))),
      Some(Or(b.preventIncrementOfMergedBranchVersion, d.preventIncrement)),
      Some(Or(b.trackMergeTarget, d.trackMergeTarget)),
      if b.versioningMode.Some? then b.versioningMode
      else if d.versioningMode.Some? then d.versioningMode else configMode,
      Some(Or(b.tracksReleaseBranches, d.tracksReleaseBranches)),
      Some(Or(b.isReleaseBranch, d.isReleaseBranch)),
      Some(Or(b.isMainline, d.isMainline)),
      b.commitMessageIncrementing)
  }

  /** Defaulting keeps every setting the user gave and leaves no required setting null. */
  lemma ApplyBranchDefaultsKeepsAndFills(configIncrement: Option<E.IncrementStrategyType>, configMode: Option<E.VersioningMode>,
                                         b: BranchConfig, branchRegex: string, sourceBranches: seq<string>, d: BranchDefaults)
    ensures var r := ApplyBranchDefaults(configIncrement, configMode, b, branchRegex, sourceBranches, d);
      KeepsUserValues(b, r) && Filled(r)
  {
  }

  /** A filled configuration passed through again with its own regex and sources and no defaults is unchanged. */
  lemma ReapplyingDefaultsChangesNothing(configIncrement: Option<E.IncrementStrategyType>, configMode: Option<E.VersioningMode>,
                                         b: BranchConfig, branchRegex: string, sourceBranches: seq<string>, d: BranchDefaults)
    ensures var r := ApplyBranchDefaults(configIncrement, configMode, b, branchRegex, sourceBranches, d);
      ApplyBranchDefaults(configIncrement, configMode, r, r.regex.value, r.sourceBranches.value, NoDefaults) == r
  {
  }

  /** One of the seven branch keys the defaults always provide, with its arguments. */
  datatype Known = Known(key: string, regex: string, sources: seq<string>, defaults: BranchDefaults)

  const Develop := Known(DevelopBranchKey, DevelopBranchRegex, [],
    BranchDefaults("alpha", Some(E.Minor), false, Some(E.ContinuousDeployment), true, None, true, false, false))
  const Default := Known(DefaultBranchKey, DefaultBranchRegex, [DevelopBranchKey, ReleaseBranchKey],
    BranchDefaults("", Some(E.Patch), true, None, false, None, false, false, true))
  const Release := Known(ReleaseBranchKey, ReleaseBranchRegex, [DevelopBranchKey, DefaultBranchKey, SupportBranchKey, ReleaseBranchKey],
    BranchDefaults("beta", Some(E.Patch), true, None, false, None, false, true, false))
  const Feature := Known(FeatureBranchKey, FeatureBranchRegex,
    [DevelopBranchKey, DefaultBranchKey, ReleaseBranchKey, FeatureBranchKey, SupportBranchKey, HotfixBranchKey],
    NoDefaults.(increment := Some(E.Inherit)))
  const PullRequest := Known(PullRequestBranchKey, PullRequestRegex,
    [DevelopBranchKey, DefaultBranchKey, ReleaseBranchKey, FeatureBranchKey, SupportBranchKey, HotfixBranchKey],
    NoDefaults.(tag := "PullRequest", tagNumberPattern := Some(@"[/-](?<number>\d+)"), increment := Some(E.Inherit)))
  const Hotfix := Known(HotfixBranchKey, HotfixBranchRegex, [DevelopBranchKey, DefaultBranchKey, SupportBranchKey],
    NoDefaults.(tag := "beta", increment := Some(E.Patch)))
  const Support := Known(SupportBranchKey, SupportBranchRegex, [DefaultBranchKey],
    BranchDefaults("", Some(E.Patch), true, None, false, None, false, false, true))

  const KnownKeys := {DevelopBranchKey, DefaultBranchKey, ReleaseBranchKey, FeatureBranchKey,
                      PullRequestBranchKey, HotfixBranchKey, SupportBranchKey}

  /** The branch dictionary: its entries and the order their keys were added in. */
  datatype Branches = Branches(entries: map<string, BranchConfig>, order: seq<string>)
  {
    ghost predicate Valid()
    {
      (forall k :: k in entries <==> k in order) &&
      (forall i, j :: 0 <= i < j < |order| ==> order[i] != order[j])
    }
  }

  /** `GetOrCreateBranchDefaults` followed by `ApplyBranchDefaults` for one known key. */
  function KnownStep(inc: Option<E.IncrementStrategyType>, mode: Option<E.VersioningMode>, s: Branches, k: Known): (r: Branches)
    ensures r.entries.Keys == s.entries.Keys + {k.key}
  {
    var b := if k.key in s.entries then s.entries[k.key] else NewBranchConfig(k.key);
    var order := if k.key in s.entries then s.order else s.order + [k.key];
    Branches(s.entries[k.key := ApplyBranchDefaults(inc, mode, b, k.regex, k.sources, k.defaults)], order)
  }

  /** The seven known keys, in the order `ApplyDefaultsTo` applies them. */
  const KnownBranches := [Develop, Default, Release, Feature, PullRequest, Hotfix, Support]

  /** The known keys of `ks`, one after another. */
  function KnownPass(inc: Option<E.IncrementStrategyType>, mode: Option<E.VersioningMode>, s: Branches, ks: seq<Known>): (r: Branches)
    decreases |ks|
  {
    if ks == [] then s else KnownStep(inc, mode, KnownPass(inc, mode, s, ks[..|ks| - 1]), ks[|ks| - 1])
  }

  /** Each known step keeps the dictionary well formed and only adds its key. */
  lemma {:induction false} KnownPassKeys(inc: Option<E.IncrementStrategyType>, mode: Option<E.VersioningMode>, s: Branches, ks: seq<Known>)
    ensures var r := KnownPass(inc, mode, s, ks);
      (s.Valid() ==> r.Valid()) && s.entries.Keys <= r.entries.Keys
    decreases |ks|
  {
    if ks != [] {
      KnownPassKeys(inc, mode, s, ks[..|ks| - 1]);
      var p := KnownPass(inc, mode, s, ks[..|ks| - 1]);
      var k := ks[|ks| - 1];
      if p.Valid() && k.key !in p.entries {
        var r := KnownStep(inc, mode, p, k);
        assert forall i :: 0 <= i < |p.order| ==> r.order[i] == p.order[i];
      }
    }
  }

  /** One more known step extends the pass by one table entry. */
  lemma KnownPassSnoc(inc: Option<E.IncrementStrategyType>, mode: Option<E.VersioningMode>, s: Branches, ks: seq<Known>, i: nat)
    requires i < |ks|
    ensures KnownPass(inc, mode, s, ks[..i + 1]) == KnownStep(inc, mode, KnownPass(inc, mode, s, ks[..i]), ks[i])
  {
    assert ks[..i + 1][..i] == ks[..i];
  }

  function MissingMessage(key: string, setting: string): string
  {
    "Branch configuration '" + key + "' is missing required configuration '" + setting + "'"
  }

  /** One user-declared branch: a null regex or null sources throw; otherwise plain defaults. */
  function UserStep(inc: Option<E.IncrementStrategyType>, mode: Option<E.VersioningMode>,
                    entries: map<string, BranchConfig>, key: string): (r: Result<map<string, BranchConfig>>)
    requires key in entries
    ensures r.Ok? ==> r.value.Keys == entries.Keys
  {
    var b := entries[key];
    if b.regex.None? then Err(ConfigurationException(MissingMessage(key, "regex")))
    else if b.sourceBranches.None? then Err(ConfigurationException(MissingMessage(key, "source-branches")))
    else Ok(entries[key := ApplyBranchDefaults(inc, mode, b, b.regex.value, b.sourceBranches.value, NoDefaults)])
  }

  /** The user-declared branches in order; the first failure is the result. */
  function UserPass(inc: Option<E.IncrementStrategyType>, mode: Option<E.VersioningMode>,
                    entries: map<string, BranchConfig>, keys: seq<string>): (r: Result<map<string, BranchConfig>>)
    requires forall k :: k in keys ==> k in entries
    ensures r.Ok? ==> r.value.Keys == entries.Keys
    decreases |keys|
  {
    if keys == [] then Ok(entries)
    else
      match UserStep(inc, mode, entries, keys[0])
      case Err(e) => Err(e)
      case Ok(next) => UserPass(inc, mode, next, keys[1..])
  }

  /** `config.Branches[target].SourceBranches.Add(key)` for each target in turn. */
  function AddSources(entries: map<string, BranchConfig>, key: string, targets: seq<string>): (r: Result<map<string, BranchConfig>>)
    ensures r.Ok? ==> r.value.Keys == entries.Keys
    decreases |targets|
  {
    if targets == [] then Ok(entries)
    else
      var t := targets[0];
      if t !in entries then Err(KeyNotFoundException(t))
      else if entries[t].sourceBranches.None? then Err(NullReferenceException)
      else
        var b := entries[t];
        AddSources(entries[t := b.(sourceBranches := Some(b.sourceBranches.value + [key]))], key, targets[1..])
  }

  /** The second pass: each user-declared branch becomes a source of the branches it names. */
  function SourcePass(entries: map<string, BranchConfig>, keys: seq<string>): (r: Result<map<string, BranchConfig>>)
    requires forall k :: k in keys ==> k in entries
    ensures r.Ok? ==> r.value.Keys == entries.Keys
    decreases |keys|
  {
    if keys == [] then Ok(entries)
    else
      var b := entries[keys[0]];
      var step := if b.isSourceBranchFor.None? then Ok(entries) else AddSources(entries, keys[0], b.isSourceBranchFor.value);
      match step
      case Err(e) => Err(e)
      case Ok(next) => SourcePass(next, keys[1..])
  }

  /** The passes over the user-declared keys `s.order`, on the dictionary the known keys left. */
  function UserPasses(inc: Option<E.IncrementStrategyType>, mode: Option<E.VersioningMode>, s: Branches, known: Branches): (r: Result<Branches>)
    requires s.Valid() && known.Valid() && s.entries.Keys <= known.entries.Keys
    ensures r.Ok? ==> r.value.Valid() && r.value.order == known.order
  {
    assert forall k :: k in s.order ==> k in known.entries;
    match UserPass(inc, mode, known.entries, s.order)
    case Err(e) => Err(e)
    case Ok(user) =>
      match SourcePass(user, s.order)
      case Err(e) => Err(e)
      case Ok(sources) => Ok(Branches(sources, known.order))
  }

  /** The branch part of `ApplyDefaultsTo`: known keys, then the user-declared keys, then the sources. */
  function DefaultBranches(inc: Option<E.IncrementStrategyType>, mode: Option<E.VersioningMode>, s: Branches): (r: Result<Branches>)
    requires s.Valid()
    ensures r.Ok? ==> r.value.Valid()
  {
    KnownPassKeys(inc, mode, s, KnownBranches);
    UserPasses(inc, mode, s, KnownPass(inc, mode, s, KnownBranches))
  }

  /** `string.IsNullOrWhiteSpace`. */
  predicate NullOrWhiteSpace(s: Option<string>)
  {
    s.None? || forall i :: 0 <= i < |s.value| ==> IsWhiteSpace(s.value[i])
  }

  /** The global settings of a `Config`. */
  datatype GlobalSettings = GlobalSettings(
    assemblyVersioningScheme: Option<A.Scheme>,
    assemblyFileVersioningScheme: Option<A.Scheme>,
    assemblyInformationalFormat: Option<string>,
    tagPrefix: Option<string>,
    versioningMode: Option<E.VersioningMode>,
    continuousDeploymentFallbackTag: Option<string>,
    majorVersionBumpMessage: Option<string>,
    minorVersionBumpMessage: Option<string>,
    patchVersionBumpMessage: Option<string>,
    noBumpMessage: Option<string>,
    commitMessageIncrementing: Option<E.CommitMessageIncrementMode>,
    buildMetaDataPadding: Option<int>,
    commitsSinceVersionSourcePadding: Option<int>,
    commitDateFormat: Option<string>,
    increment: Option<E.IncrementStrategyType>,
    nextVersion: Option<string>,
    taggedCommitsLimit: Option<int>)

  /** A configuration document that sets nothing. */
  const NoGlobals := GlobalSettings(None, None, None, None, None, None, None, None, None, None, None, None, None, None, None, None, None)

  /** Every global setting that was set keeps its value. */
  predicate KeepsGlobals(g: GlobalSettings, r: GlobalSettings)
  {
    (g.assemblyVersioningScheme.Some? ==> r.assemblyVersioningScheme == g.assemblyVersioningScheme) &&
    (g.assemblyFileVersioningScheme.Some? ==> r.assemblyFileVersioningScheme == g.assemblyFileVersioningScheme) &&
    r.assemblyInformationalFormat == g.assemblyInformationalFormat &&
    (g.tagPrefix.Some? ==> r.tagPrefix == g.tagPrefix) &&
    (g.versioningMode.Some? ==> r.versioningMode == g.versioningMode) &&
    (g.continuousDeploymentFallbackTag.Some? ==> r.continuousDeploymentFallbackTag == g.continuousDeploymentFallbackTag) &&
    (g.majorVersionBumpMessage.Some? ==> r.majorVersionBumpMessage == g.majorVersionBumpMessage) &&
    (g.minorVersionBumpMessage.Some? ==> r.minorVersionBumpMessage == g.minorVersionBumpMessage) &&
    (g.patchVersionBumpMessage.Some? ==> r.patchVersionBumpMessage == g.patchVersionBumpMessage) &&
    (g.noBumpMessage.Some? ==> r.noBumpMessage == g.noBumpMessage) &&
    (g.commitMessageIncrementing.Some? ==> r.commitMessageIncrementing == g.commitMessageIncrementing) &&
    (g.buildMetaDataPadding.Some? ==> r.buildMetaDataPadding == g.buildMetaDataPadding) &&
    (g.commitsSinceVersionSourcePadding.Some? ==> r.commitsSinceVersionSourcePadding == g.commitsSinceVersionSourcePadding) &&
    (g.commitDateFormat.Some? ==> r.commitDateFormat == g.commitDateFormat) &&
    r.increment == g.increment && r.nextVersion == g.nextVersion && r.taggedCommitsLimit == g.taggedCommitsLimit
  }

  /** The global settings `ApplyDefaultsTo` always sets. */
  predicate GlobalsFilled(r: GlobalSettings)
  {
    r.assemblyVersioningScheme.Some? && r.assemblyFileVersioningScheme.Some? && r.tagPrefix.Some? &&
    r.versioningMode.Some? && r.continuousDeploymentFallbackTag.Some? && r.majorVersionBumpMessage.Some? &&
    r.minorVersionBumpMessage.Some? && r.patchVersionBumpMessage.Some? && r.noBumpMessage.Some? &&
    r.commitMessageIncrementing.Some? && r.buildMetaDataPadding.Some? &&
    r.commitsSinceVersionSourcePadding.Some? && r.commitDateFormat.Some?
  }

  /** The global half of `ApplyDefaultsTo`: each null setting takes its default. */
  function DefaultGlobals(g: GlobalSettings): GlobalSettings
  {
    GlobalSettings(
      Some(Or(g.assemblyVersioningScheme, A.MajorMinorPatch)),
      Some(Or(g.assemblyFileVersioningScheme, A.MajorMinorPatch)),
      g.assemblyInformationalFormat,
      Some(Or(g.tagPrefix, DefaultTagPrefix)),
      Some(Or(g.versioningMode, E.ContinuousDelivery)),
      Some(Or(g.continuousDeploymentFallbackTag, "ci")),
      Some(Or(g.majorVersionBumpMessage, DefaultMajorPattern)),
      Some(Or(g.minorVersionBumpMessage, DefaultMinorPattern)),
      Some(Or(g.patchVersionBumpMessage, DefaultPatchPattern)),
      Some(Or(g.noBumpMessage, DefaultNoBumpPattern)),
      Some(Or(g.commitMessageIncrementing, E.Enabled)),
      Some(Or(g.buildMetaDataPadding, 4)),
      Some(Or(g.commitsSinceVersionSourcePadding, 4)),
      Some(Or(g.commitDateFormat, "yyyy-MM-dd")),
      g.increment, g.nextVersion, g.taggedCommitsLimit)
  }

  /** Defaulting the globals keeps what was set and fills the rest. */
  lemma DefaultGlobalsKeepsAndFills(g: GlobalSettings)
    ensures var d := DefaultGlobals(g); KeepsGlobals(g, d) && GlobalsFilled(d)
  {
  }

  /** Applying the global defaults a second time changes nothing. */
  lemma DefaultGlobalsIdempotent(g: GlobalSettings)
    ensures var d := DefaultGlobals(g); DefaultGlobals(d) == d
  {
  }

  /** `Config`: the global settings and the branch dictionary. */
  class Config {
    var globals: GlobalSettings
    var branches: map<string, BranchConfig>
    var branchKeys: seq<string>

    ghost predicate Valid()
      reads this
    {
      Branches(branches, branchKeys).Valid()
    }

    /** `new Config()`: nothing set and no branches. */
    constructor()
      ensures Valid() && globals == NoGlobals && branches == map[] && branchKeys == []
    {
      globals := NoGlobals;
      branches := map[];
      branchKeys := [];
    }

    /** `GetOrCreateBranchDefaults`: the stored configuration, or a new one added under the key. */
    method GetOrCreateBranchDefaults(key: string) returns (b: BranchConfig)
      requires Valid()
      modifies this`branches, this`branchKeys
      ensures Valid() && key in branches && b == branches[key]
      ensures key in old(branches) ==> branches == old(branches) && branchKeys == old(branchKeys)
      ensures key !in old(branches) ==>
        b == NewBranchConfig(key) && branches == old(branches)[key := b] && branchKeys == old(branchKeys) + [key]
    {
      if key !in branches {
        b := NewBranchConfig(key);
        branches := branches[key := b];
        branchKeys := branchKeys + [key];
        return;
      }
      b := branches[key];
    }

    /** The defaults of one known key, applied to the stored or new configuration in place. */
    method ApplyKnownBranch(k: Known)
      requires Valid()
      modifies this`branches, this`branchKeys
      ensures Valid()
      ensures Branches(branches, branchKeys) == KnownStep(globals.increment, globals.versioningMode, old(Branches(branches, branchKeys)), k)
      ensures old(branches).Keys <= branches.Keys
    {
      var b := GetOrCreateBranchDefaults(k.key);
      branches := branches[k.key := ApplyBranchDefaults(globals.increment, globals.versioningMode, b, k.regex, k.sources, k.defaults)];
    }

    /**
     * `ApplyDefaultsTo`: fills the null global settings, then the branch dictionary.
     * The globals are filled before anything can throw.
     */
    method ApplyDefaultsTo() returns (r: Result<()>)
      requires Valid()
      modifies this
      ensures globals == DefaultGlobals(old(globals))
      ensures var d := DefaultBranches(old(globals.increment), globals.versioningMode, old(Branches(branches, branchKeys)));
        (r.Ok? <==> d.Ok?) && (r.Err? ==> r.error == d.error) &&
        (r.Ok? ==> Valid() && Branches(branches, branchKeys) == d.value)
    {
      globals := DefaultGlobals(globals);
      r := ApplyBranchDictionaryDefaults();
    }

    /** The branch part of `ApplyDefaultsTo`, over a snapshot of the keys the configuration declared. */
    method ApplyBranchDictionaryDefaults() returns (r: Result<()>)
      requires Valid()
      modifies this`branches, this`branchKeys
      ensures var d := DefaultBranches(globals.increment, globals.versioningMode, old(Branches(branches, branchKeys)));
        (r.Ok? <==> d.Ok?) && (r.Err? ==> r.error == d.error) &&
        (r.Ok? ==> Valid() && Branches(branches, branchKeys) == d.value)
    {
      var snapshot := branchKeys;
      ghost var start := Branches(branches, branchKeys);
      ApplyKnownBranchDefaults();
      ghost var known := Branches(branches, branchKeys);
      assert DefaultBranches(globals.increment, globals.versioningMode, start) == UserPasses(globals.increment, globals.versioningMode, start, known);
      r := ApplyUserBranchDefaults(snapshot);
      ghost var user := UserPass(globals.increment, globals.versioningMode, known.entries, snapshot);
      if r.Err? {
        assert UserPasses(globals.increment, globals.versioningMode, start, known) == Err(user.error);
        return;
      }
      r := AddExtraSourceBranches(snapshot);
      assert UserPasses(globals.increment, globals.versioningMode, start, known) ==
        match SourcePass(user.value, snapshot)
        case Err(e) => Err(e)
        case Ok(sources) => Ok(Branches(sources, known.order));
    }

    /** The seven known keys, one `GetOrCreateBranchDefaults` and `ApplyBranchDefaults` each, in table order. */
    method ApplyKnownBranchDefaults()
      requires Valid()
      modifies this`branches, this`branchKeys
      ensures Valid()
      ensures Branches(branches, branchKeys) == KnownPass(globals.increment, globals.versioningMode, old(Branches(branches, branchKeys)), KnownBranches)
      ensures old(branches).Keys <= branches.Keys
    {
      ghost var s0 := Branches(branches, branchKeys);
      for i := 0 to |KnownBranches|
        invariant Valid() && globals == old(globals)
        invariant Branches(branches, branchKeys) == KnownPass(globals.increment, globals.versioningMode, s0, KnownBranches[..i])
        invariant old(branches).Keys <= branches.Keys
      {
        ApplyKnownBranch(KnownBranches[i]);
        KnownPassSnoc(globals.increment, globals.versioningMode, s0, KnownBranches, i);
      }
      assert KnownBranches[..|KnownBranches|] == KnownBranches;
    }

    /** The user-declared branches of the snapshot, defaulted after the known ones. */
    method ApplyUserBranchDefaults(snapshot: seq<string>) returns (r: Result<()>)
      requires Valid() && forall k :: k in snapshot ==> k in branches
      modifies this`branches
      ensures Valid() && branches.Keys == old(branches.Keys)
      ensures var u := UserPass(globals.increment, globals.versioningMode, old(branches), snapshot);
        (r.Ok? <==> u.Ok?) && (r.Err? ==> r.error == u.error) && (r.Ok? ==> branches == u.value)
    {
      var i := 0;
      while i < |snapshot|
        invariant 0 <= i <= |snapshot|
        invariant branches.Keys == old(branches.Keys)
        invariant UserPass(globals.increment, globals.versioningMode, old(branches), snapshot) ==
                  UserPass(globals.increment, globals.versioningMode, branches, snapshot[i..])
      {
        var key := snapshot[i];
        var b := branches[key];
        if b.regex.None? {
          return Err(ConfigurationException(MissingMessage(key, "regex")));
        }
        if b.sourceBranches.None? {
          return Err(ConfigurationException(MissingMessage(key, "source-branches")));
        }
        branches := branches[key := ApplyBranchDefaults(globals.increment, globals.versioningMode, b, b.regex.value, b.sourceBranches.value, NoDefaults)];
        assert snapshot[i..][1..] == snapshot[i + 1..];
        i := i + 1;
      }
      r := Ok(());
    }

    /** The second pass: each branch of the snapshot is added to the sources of the branches it names. */
    method AddExtraSourceBranches(snapshot: seq<string>) returns (r: Result<()>)
      requires Valid() && forall k :: k in snapshot ==> k in branches
      modifies this`branches
      ensures Valid() && branches.Keys == old(branches.Keys)
      ensures var u := SourcePass(old(branches), snapshot);
        (r.Ok? <==> u.Ok?) && (r.Err? ==> r.error == u.error) && (r.Ok? ==> branches == u.value)
    {
      var i := 0;
      while i < |snapshot|
        invariant 0 <= i <= |snapshot|
        invariant branches.Keys == old(branches.Keys)
        invariant SourcePass(old(branches), snapshot) == SourcePass(branches, snapshot[i..])
      {
        var key := snapshot[i];
        var targets := branches[key].isSourceBranchFor;
        if targets.Some? {
          ghost var before := branches;
          var j := 0;
          while j < |targets.value|
            invariant 0 <= j <= |targets.value|
            invariant branches.Keys == old(branches.Keys)
            invariant AddSources(before, key, targets.value) == AddSources(branches, key, targets.value[j..])
          {
            var t := targets.value[j];
            if t !in branches {
              return Err(KeyNotFoundException(t));
            }
            if branches[t].sourceBranches.None? {
              return Err(NullReferenceException);
            }
            var target := branches[t];
            branches := branches[t := target.(sourceBranches := Some(target.sourceBranches.value + [key]))];
            assert targets.value[j..][1..] == targets.value[j + 1..];
            j := j + 1;
          }
        }
        assert snapshot[i..][1..] == snapshot[i + 1..];
        i := i + 1;
      }
      r := Ok(());
    }

    /** `ApplyOverridesTo`: only the tag prefix, and only when the override is not blank. */
    method ApplyOverridesTo(overrideConfig: Config)
      modifies this`globals
      ensures globals == Overridden(old(globals), old(overrideConfig.globals.tagPrefix))
    {
      globals := Overridden(globals, overrideConfig.globals.tagPrefix);
    }

    /**
     * `Provide` after the file has been read into this configuration: verify, then the
     * defaults when asked for, then the overrides when given.
     */
    method Provide(applyDefaults: bool, overrideConfig: Config?) returns (r: Result<()>)
      requires Valid()
      modifies this
      ensures HasMainlineBranch(old(branches)) ==>
        r == Err(ConfigurationException(MainlineBranchMessage)) && unchanged(this)
      ensures !HasMainlineBranch(old(branches)) && !applyDefaults ==>
        r == Ok(()) && branches == old(branches) && branchKeys == old(branchKeys) &&
        (overrideConfig == null ==> globals == old(globals)) &&
        (overrideConfig != null ==> globals == Overridden(old(globals), old(overrideConfig.globals.tagPrefix)))
      ensures !HasMainlineBranch(old(branches)) && applyDefaults ==>
        var d := DefaultBranches(old(globals.increment), DefaultGlobals(old(globals)).versioningMode, old(Branches(branches, branchKeys)));
        (r.Ok? <==> d.Ok?) && (r.Err? ==> r.error == d.error) &&
        (r.Ok? ==> Branches(branches, branchKeys) == d.value) &&
        (r.Ok? && (overrideConfig == null || overrideConfig == this) ==> globals == DefaultGlobals(old(globals))) &&
        (r.Ok? && overrideConfig != null && overrideConfig != this ==>
           globals == Overridden(DefaultGlobals(old(globals)), old(overrideConfig.globals.tagPrefix)))
    {
      r := VerifyConfiguration(branches);
      if r.Err? {
        return;
      }
      if applyDefaults {
        r := ApplyDefaultsTo();
        if r.Err? {
          return;
        }
      }
      if overrideConfig != null {
        ApplyOverridesTo(overrideConfig);
      }
    }
  }

  /** The settings after `ApplyOverridesTo` with the override's tag prefix `p`: a blank one is ignored. */
  function Overridden(g: GlobalSettings, p: Option<string>): (r: GlobalSettings)
    ensures r.tagPrefix == (if NullOrWhiteSpace(p) then g.tagPrefix else p)
    ensures r == g.(tagPrefix := r.tagPrefix)
  {
    g.(tagPrefix := if NullOrWhiteSpace(p) then g.tagPrefix else p)
  }

  /** Some branch of the configuration as read is put into mainline mode. */
  predicate HasMainlineBranch(branches: map<string, BranchConfig>)
  {
    exists k :: k in branches && branches[k].versioningMode == Some(E.Mainline)
  }

  /** `VerifyConfiguration`: throws when any branch is put into mainline mode. */
  function VerifyConfiguration(branches: map<string, BranchConfig>): (r: Result<()>)
    ensures r.Err? <==> HasMainlineBranch(branches)
    ensures r.Err? ==> r.error == ConfigurationException(MainlineBranchMessage)
  {
    if HasMainlineBranch(branches) then Err(ConfigurationException(MainlineBranchMessage))
    else Ok(())
  }

  /**
   * The check looks at the branches as read, before any default is applied: a branch
   * that passes it ends up in mainline mode after `ApplyBranchDefaults` exactly when it
   * sets no mode itself and its defaults, or else the global mode, are mainline.
   */
  lemma {:induction false} MainlineOnlyByDefault(branches: map<string, BranchConfig>, k: string,
                                                 configIncrement: Option<E.IncrementStrategyType>, configMode: Option<E.VersioningMode>,
                                                 branchRegex: string, sourceBranches: seq<string>, d: BranchDefaults)
    requires VerifyConfiguration(branches).Ok? && k in branches
    ensures var r := ApplyBranchDefaults(configIncrement, configMode, branches[k], branchRegex, sourceBranches, d);
      r.versioningMode == Some(E.Mainline) <==>
        branches[k].versioningMode.None? &&
        (d.versioningMode == Some(E.Mainline) || (d.versioningMode.None? && configMode == Some(E.Mainline)))
  {
    if branches[k].versioningMode.Some? {
      assert branches[k].versioningMode != Some(E.Mainline);
    }
  }
}
