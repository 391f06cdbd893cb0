/**
 * `BaseVersion`, the increment strategy chosen for it, `MaybeIncrement`, and the
 * fallback strategy that proposes 0.1.0 at the root commit.
 */
module BaseVersions {
  import opened Wrappers
  import opened Commits
  import opened Repositories
  import T = PreReleaseTags
  import S = SemanticVersions
  import I = Increments

  /** `BaseVersion`: a read-only record; nothing checks that the source is non-null. */
  datatype BaseVersion = BaseVersion(typeName: string, version: S.SemanticVersion, source: Option<Commit>,
                                     shouldIncrement: bool)

  function SourceText(source: Option<Commit>): string
  {
    if source.None? then "External Source" else source.value.hash
  }

  function FlagText(shouldIncrement: bool): string
  {
    if shouldIncrement then "Should increment" else "None"
  }

  /** The "f" form of a version, which never throws. */
  function FullText(v: S.SemanticVersion): (r: string)
    ensures S.ToString(v, Some("f")) == Ok(r)
  {
    S.ToString(v, Some("f")).value
  }

  predicate EndsWith(s: string, suffix: string)
  {
    |suffix| <= |s| && s[|s| - |suffix|..] == suffix
  }

  lemma EndsWithConcat(x: string, y: string)
    ensures EndsWith(x + y, y)
  {
    assert (x + y)[|x|..] == y;
  }

  lemma EndsWithPart(s: string, x: string, y: string)
    requires EndsWith(s, x + y)
    ensures EndsWith(s, y)
  {
    assert s[|s| - |y|..] == (x + y)[|x|..];
  }

  /** The end of the printed form: the source, then the increment flag in parentheses. */
  function Tail(b: BaseVersion): string
  {
    " with commit count source " + SourceText(b.source) + Flag(b)
  }

  function Flag(b: BaseVersion): string
  {
    " (" + FlagText(b.shouldIncrement) + ")"
  }

  /** `ToString()`: the type, the "f" form, the source's hash and the increment flag. */
  function ToString(b: BaseVersion): (r: string)
    ensures b.typeName + ": " + FullText(b.version) <= r
    ensures EndsWith(r, Tail(b)) && EndsWith(r, Flag(b))
  {
    var head := b.typeName + ": " + FullText(b.version);
    EndsWithConcat(head, Tail(b));
    EndsWithPart(head + Tail(b), " with commit count source " + SourceText(b.source), Flag(b));
    head + Tail(b)
  }

  lemma FlagSuffix(r: string, shouldIncrement: bool)
    requires EndsWith(r, " (" + FlagText(shouldIncrement) + ")")
    ensures shouldIncrement <==> EndsWith(r, " (Should increment)")
  {
    if !shouldIncrement {
      var n := |r|;
      assert r[n - 7..] == " (None)";
      assert r[n - 2] == 'e';
    }
  }

  /** The printed form tells the increment flag apart. */
  lemma ToStringShowsFlag(b: BaseVersion)
    ensures b.shouldIncrement <==> EndsWith(ToString(b), " (Should increment)")
  {
    FlagSuffix(ToString(b), b.shouldIncrement);
  }

  // ---------------------------------------------------------------------------
  // `IncrementStrategyFactory`

  /** `GetStrategy(context)`: always Patch; neither the repository nor the configuration is read. */
  function GetStrategy(context: Repository): (r: I.IncrementStrategy)
    ensures r.incrementField == I.Patch
  {
    I.IncrementStrategy(I.Patch)
  }

  /** `GetStrategy(context, baseVersion)`: Patch when the base version asks for a bump, None otherwise. */
  function GetStrategyFor(context: Repository, b: BaseVersion): (r: I.IncrementStrategy)
    ensures b.shouldIncrement ==> r == GetStrategy(context)
    ensures !b.shouldIncrement ==> r.incrementField == I.None
  {
    if b.shouldIncrement then I.IncrementStrategy(I.Patch) else I.IncrementStrategy(I.None)
  }

  /** A base version that asks for no bump, and whose tag is null or unnumbered, is copied unchanged. */
  lemma NoBumpStrategyCopies(context: Repository, b: BaseVersion)
    requires !b.shouldIncrement && (b.version.tag.IsNull() || b.version.tag.number.None?)
    ensures var r := GetStrategyFor(context, b).IncrementVersion(b.version); r.Ok? && S.FullEqual(r.value, b.version)
  {
  }

  /**
   * The None strategy still takes the pre-release path: a numbered tag counts up even
   * though the base version asks for no bump.
   */
  lemma NoBumpStillCountsUpNumberedTag(context: Repository)
    ensures var v := S.New(1, 0, 0).(tag := T.PreReleaseTag(Some("beta"), Some(1)));
      var b := BaseVersion("Tagged", v, None, false);
      GetStrategyFor(context, b).IncrementVersion(v) == Ok(v.(tag := T.PreReleaseTag(Some("beta"), Some(2))))
  {
  }

  // ---------------------------------------------------------------------------
  // `BaseVersionExtensions`

  /**
   * `MaybeIncrement`: the chosen strategy applied to the version. The strategies the
   * factory hands out never throw.
   */
  function MaybeIncrement(b: BaseVersion, context: Repository): (r: S.SemanticVersion)
    ensures GetStrategyFor(context, b).IncrementVersion(b.version) == Ok(r)
    ensures !b.shouldIncrement && (b.version.tag.IsNull() || b.version.tag.number.None?) ==> S.FullEqual(r, b.version)
    ensures b.shouldIncrement && b.version.tag.IsNull() ==> r == b.version.(patch := b.version.patch + 1)
    ensures !b.version.tag.IsNull() && b.version.tag.number.Some? ==>
      r == b.version.(tag := b.version.tag.(number := Some(b.version.tag.number.value + 1)))
  {
    GetStrategyFor(context, b).IncrementVersion(b.version).value
  }

  // ---------------------------------------------------------------------------
  // `FallbackBaseVersionStrategy`

  const FallbackType: string := "Fallback base version"

  function RootCommitMessage(tip: Commit): string
  {
    "Can't find commit " + tip.hash + ". Please ensure that the repository is an unshallow clone with `git fetch --unshallow`."
  }

  /** `GetRootCommit`: the only answer of "ancestors of the tip, limit 1"; no answer or several throw. */
  function GetRootCommit(repository: Repository, tip: Commit): (r: Result<Commit>)
    ensures r.Ok? <==> |repository.log(AncestorsOfLimit1(tip.hash))| == 1
    ensures r.Ok? ==> repository.log(AncestorsOfLimit1(tip.hash)) == [r.value]
    ensures r.Err? ==> r.error == BaseVersionException(RootCommitMessage(tip))
  {
    var commits := repository.log(AncestorsOfLimit1(tip.hash));
    if |commits| == 1 then Ok(commits[0]) else Err(BaseVersionException(RootCommitMessage(tip)))
  }

  /** `GetVersions`: one candidate, 0.1.0 at the root commit, not to be incremented. */
  function FallbackVersions(context: Repository): (r: Result<seq<BaseVersion>>)
    ensures r.Ok? <==> GetRootCommit(context, context.tip).Ok?
    ensures r.Ok? ==> |r.value| == 1
    ensures r.Ok? ==> r.value[0] == BaseVersion(FallbackType, S.New(0, 1, 0), Some(GetRootCommit(context, context.tip).value), false)
    ensures r.Err? ==> r.error == BaseVersionException(RootCommitMessage(context.tip))
  {
    var root :- GetRootCommit(context, context.tip);
    Ok([BaseVersion(FallbackType, S.New(0, 1, 0), Some(root), false)])
  }

  /** The fallback candidate is left as it is: 0.1.0 with no tag and no metadata. */
  lemma FallbackIsNotIncremented(context: Repository)
    requires FallbackVersions(context).Ok?
    ensures var b := FallbackVersions(context).value[0];
      S.FullEqual(MaybeIncrement(b, context), S.New(0, 1, 0)) && MaybeIncrement(b, context).tag.IsNull()
  {
  }
}
