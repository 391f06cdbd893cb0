/**
 * `NextVersionCalculator` with its two stub calculators: the next version takes its
 * numbers from the incremented base version, its tag from the tag calculator and its
 * metadata from the metadata calculator.
 */
module NextVersions {
  import opened Wrappers
  import opened Text
  import opened Commits
  import opened Repositories
  import T = PreReleaseTags
  import B = BuildMetadatas
  import S = SemanticVersions
  import opened BaseVersions
  import BVC = BaseVersionCalculators

  /** `PreReleaseTagCalculator.CalculateTag`: always alpha.1, whatever it is given. */
  function CalculateTag(context: Repository, v: S.SemanticVersion): (r: T.PreReleaseTag)
    ensures r == T.PreReleaseTag(Some("alpha"), Some(1))
    ensures !r.IsNull() && T.ToString(r, None) == Ok(Some("alpha.1"))
  {
    var r := T.PreReleaseTag(Some("alpha"), Some(1));
    assert NatToString(1) == "1";
    assert T.TagText(r) == Some("alpha" + "." + "1");
    assert "alpha" + "." + "1" == "alpha.1";
    T.PreReleaseTag(Some("alpha"), Some(1))
  }

  /** The tag is independent of the context and of the version. */
  lemma TagIgnoresInputs(c1: Repository, c2: Repository, v1: S.SemanticVersion, v2: S.SemanticVersion)
    ensures CalculateTag(c1, v1) == CalculateTag(c2, v2)
  {
  }

  /**
   * `MetadataCalculator.CalculateMetadata`: one commit since the tag, the repository's
   * branch, and the tip's hash and time; the base version's source is not read.
   */
  function CalculateMetadata(context: Repository, baseVersionSource: Option<Commit>): (r: B.BuildMetadata)
    ensures r.commitsSinceTag == Some(1) && r.commitsSinceVersionSource == 1
    ensures r.branch == Some(context.branch) && r.sha == Some(context.tip.hash)
    ensures r.commitDate == context.tip.timestamp && r.otherMetaData == None
  {
    B.Create(Some(1), Some(context.branch), Some(context.tip.hash), context.tip.timestamp, None)
  }

  lemma MetadataIgnoresSource(context: Repository, s1: Option<Commit>, s2: Option<Commit>)
    ensures CalculateMetadata(context, s1) == CalculateMetadata(context, s2)
  {
  }

  /**
   * `NextVersionCalculator`: the strategies of its base version calculator. The metadata
   * and tag calculators are always the two stubs above.
   */
  datatype NextVersionCalculator = NextVersionCalculator(strategies: seq<BVC.Strategy>)

  /** The constructor: without a base version calculator, the one with only the fallback strategy. */
  function Create(baseVersionCalculator: Option<seq<BVC.Strategy>>): (r: NextVersionCalculator)
    ensures baseVersionCalculator.None? ==> r.strategies == [BVC.Fallback]
    ensures baseVersionCalculator.Some? ==> r.strategies == baseVersionCalculator.value
  {
    NextVersionCalculator(baseVersionCalculator.GetOr([BVC.Fallback]))
  }

  /**
   * `CalculateVersion`: the numbers of the incremented base version; its tag and its
   * metadata are replaced by the calculators'.
   */
  function CalculateVersion(calculator: NextVersionCalculator, context: Repository): (r: Result<S.SemanticVersion>)
    ensures r.Ok? <==> BVC.CalculateVersion(calculator.strategies, context).Ok?
    ensures r.Err? ==> r.error == BVC.CalculateVersion(calculator.strategies, context).error
    ensures r.Ok? ==> var b := BVC.CalculateVersion(calculator.strategies, context).value;
      S.SameCore(r.value, MaybeIncrement(b, context)) &&
      r.value.tag == T.PreReleaseTag(Some("alpha"), Some(1)) &&
      r.value.meta == CalculateMetadata(context, b.source)
  {
    var baseVersion :- BVC.CalculateVersion(calculator.strategies, context);
    var semver := MaybeIncrement(baseVersion, context);
    var buildMetadata := CalculateMetadata(context, baseVersion.source);
    var preReleaseTag := CalculateTag(context, semver);
    Ok(S.Create(semver.major, semver.minor, semver.patch, Some(preReleaseTag), Some(buildMetadata)))
  }

  /**
   * With the defaults and a repository whose tip has one root commit, the next version
   * is 0.1.0-alpha.1 with one commit since the tag; under the MajorMinorPatch comparer
   * it equals 0.1.0.
   */
  lemma DefaultsOnFirstCommit(context: Repository, root: Commit)
    requires context.log(AncestorsOfLimit1(context.tip.hash)) == [root]
    ensures var r := CalculateVersion(Create(None), context);
      r.Ok? && S.ToString(r.value, None) == Ok("0.1.0-alpha.1") && r.value.meta.commitsSinceTag == Some(1) &&
      S.ComparerEquals(S.MajorMinorPatch, Some(r.value), Some(S.New(0, 1, 0)), false) == Ok(true)
  {
    BVC.FallbackOnly(context);
    var r := CalculateVersion(Create(None), context).value;
    assert r == S.SemanticVersion(0, 1, 0, T.PreReleaseTag(Some("alpha"), Some(1)), CalculateMetadata(context, Some(root)));
    assert NatToString(0) == "0" && NatToString(1) == "1";
    assert S.CoreText(r) == "0" + "." + "1" + "." + "0" == "0.1.0";
    assert T.TagText(r.tag) == Some("alpha.1") by {
      assert T.TagText(r.tag) == Some("alpha" + "." + "1");
    }
    assert S.TaggedText(r) == "0.1.0" + "-" + "alpha.1" == "0.1.0-alpha.1";
  }
}
