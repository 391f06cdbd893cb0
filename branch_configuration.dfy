/**
 * `BranchConfigurationCalculator`: the configuration of the branch being versioned.
 * A branch whose configuration says Inherit takes its increment settings from a
 * parent branch, found from the merge parents and branch point of the current commit,
 * falling back to the develop or default branch. The branches already tried are kept
 * in one list that the whole resolution appends to.
 */
module BranchConfigurations {
  import opened Wrappers
  import opened Commits
  import opened BranchHeads
  import opened Repositories
  import opened Sequences
  import E = ConfigEnums
  import opened Configurations
  import MP = MetadataProviders

  /**
   * What the calculator reads of the version context: the repository, the full
   * configuration, `GetConfigForBranch` and `Regex.IsMatch(name, pattern, IgnoreCase)`,
   * the last two as given functions.
   */
  datatype Context = Context(
    repository: Repository,
    globals: GlobalSettings,
    branches: map<string, BranchConfig>,
    configForBranch: string -> Option<BranchConfig>,
    isMatch: (string, string) -> bool)

  predicate InheritsIncrement(b: BranchConfig)
  {
    b.increment == Some(E.Inherit)
  }

  /** The configuration `GetConfigForBranch` finds, or the defaulted one made for a branch it does not cover. */
  function MatchingConfig(ctx: Context, target: BranchHead): BranchConfig
  {
    match ctx.configForBranch(target.name)
    case Some(b) => b
    case None => ApplyBranchDefaults(ctx.globals.increment, ctx.globals.versioningMode, NewBranchConfig(""), "", [], NoDefaults)
  }

  /** A branch the configuration does not cover gets an empty name, an empty regex and no source branches. */
  lemma SynthesisedConfig(ctx: Context, target: BranchHead)
    requires ctx.configForBranch(target.name).None?
    ensures var b := MatchingConfig(ctx, target);
      b.name == Some("") && b.regex == Some("") && b.sourceBranches == Some([]) && Filled(b) &&
      b.increment == Some(Or(ctx.globals.increment, E.Inherit))
  {
  }

  /** The branches whose own configuration says Inherit: the list a resolution starts from. */
  function InheritConfigured(ctx: Context): (r: seq<BranchHead>)
    ensures forall b :: b in r <==> (b in ctx.repository.branches &&
      ctx.configForBranch(b.name).Some? && InheritsIncrement(ctx.configForBranch(b.name).value))
  {
    Filter(ctx.repository.branches, (b: BranchHead) =>
      ctx.configForBranch(b.name).Some? && InheritsIncrement(ctx.configForBranch(b.name).value))
  }

  /** `FirstOrDefault(b => b.Name == "default") ?? First()`. */
  function DefaultOrFirst(bs: seq<BranchHead>): (r: BranchHead)
    requires bs != []
    ensures r in bs
    ensures (exists b :: b in bs && b.name == DefaultBranchKey) <==> r.name == DefaultBranchKey
    ensures r.name != DefaultBranchKey ==> r == bs[0]
  {
    var i := IndexWhere(bs, (b: BranchHead) => b.name == DefaultBranchKey);
    if i < |bs| then bs[i] else bs[0]
  }

  /** The outcome of `CalculateWhenMultipleParents`: the returned exclusions and the new `ref` target. */
  datatype MergeTarget = MergeTarget(excluded: seq<BranchHead>, target: BranchHead)

  /**
   * `CalculateWhenMultipleParents` for a merge commit: the branches headed at the
   * second parent decide the target, then those headed at the first parent.
   */
  function WhenMultipleParents(repository: Repository, target: BranchHead, excluded: seq<BranchHead>): (r: MergeTarget)
    requires |repository.parents(repository.currentCommit)| == 2
    ensures var parents := repository.parents(repository.currentCommit);
      var second := MP.HeadsAt(repository.branches, parents[1]);
      var first := MP.HeadsAt(repository.branches, parents[0]);
      (|second| == 1 ==> r == MergeTarget([target, second[0]], second[0])) &&
      (|second| != 1 ==> r.excluded == excluded) &&
      (|second| > 1 ==> r.target in second) &&
      (second == [] && |first| > 0 ==> r.target in first) &&
      (second == [] && first == [] ==> r.target == target) &&
      (|second| > 1 || (second == [] && |first| > 1) ==>
        (r.target.name == DefaultBranchKey <==> (exists b :: (b in repository.branches && b.name == DefaultBranchKey &&
          b.commit == (if second == [] then parents[0] else parents[1])))))
  {
    var parents := repository.parents(repository.currentCommit);
    var second := MP.HeadsAt(repository.branches, parents[1]);
    if |second| == 1 then MergeTarget([target, second[0]], second[0])
    else if |second| > 1 then MergeTarget(excluded, DefaultOrFirst(second))
    else
      var first := MP.HeadsAt(repository.branches, parents[0]);
      if |first| > 1 then MergeTarget(excluded, DefaultOrFirst(first))
      else MergeTarget(excluded, if |first| == 1 then first[0] else target)
  }

  /**
   * `CalculatePossibleParents`: with no branch point, at most two of the evaluated
   * branches headed at the current commit; otherwise those headed at the branch
   * point, without the current commit's when there are several.
   */
  function PossibleParents(repository: Repository, branchPoint: Option<Commit>, evaluate: seq<BranchHead>): (r: seq<BranchHead>)
    ensures forall b :: b in r ==> b in evaluate
    ensures branchPoint.None? ==> |r| <= 2 && forall b :: b in r ==> b.commit == repository.currentCommit
    ensures branchPoint.Some? ==> forall b :: b in r ==> b.commit == branchPoint.value
    ensures branchPoint.Some? && |MP.HeadsAt(evaluate, branchPoint.value)| > 1 ==>
      forall b :: b in r ==> b.commit != repository.currentCommit
    ensures branchPoint.None? ==> var current := MP.HeadsAt(evaluate, repository.currentCommit);
      r <= current && |r| == (if |current| < 2 then |current| else 2)
    ensures branchPoint.Some? ==> forall b :: (b in evaluate && b.commit == branchPoint.value &&
      (|MP.HeadsAt(evaluate, branchPoint.value)| > 1 ==> b.commit != repository.currentCommit)) ==> b in r
  {
    if branchPoint.None? then
      var current := MP.HeadsAt(evaluate, repository.currentCommit);
      current[..if |current| < 2 then |current| else 2]
    else
      var branches := MP.HeadsAt(evaluate, branchPoint.value);
      if |branches| > 1 then Except(branches, MP.HeadsAt(evaluate, repository.currentCommit))
      else branches
  }

  /** No branch before the `i`-th matches the develop or the default pattern. */
  predicate NoneMatchBefore(bs: seq<BranchHead>, i: nat, develop: string, default: string, isMatch: (string, string) -> bool)
    requires i <= |bs|
  {
    forall j | 0 <= j < i :: !isMatch(bs[j].name, develop) && !isMatch(bs[j].name, default)
  }

  /** `Regex.IsMatch` with a null pattern throws. */
  function FirstMatching(bs: seq<BranchHead>, develop: Option<string>, default: Option<string>,
                         isMatch: (string, string) -> bool): (r: Result<Option<BranchHead>>)
    ensures r.Err? ==> r.error == ArgumentNullException("pattern") && bs != []
    ensures r.Ok? && r.value.Some? ==> r.value.value in bs
    ensures develop.Some? && default.Some? ==> r.Ok? && (r.value.None? <==>
      forall b :: b in bs ==> !isMatch(b.name, develop.value) && !isMatch(b.name, default.value))
    ensures develop.Some? && default.Some? && r.value.Some? ==>
      isMatch(r.value.value.name, develop.value) || isMatch(r.value.value.name, default.value)
    ensures develop.Some? && default.Some? && r.value.Some? ==>
      exists i :: 0 <= i < |bs| && bs[i] == r.value.value && NoneMatchBefore(bs, i, develop.value, default.value, isMatch)
    decreases |bs|
  {
    if bs == [] then Ok(None)
    else if develop.None? then Err(ArgumentNullException("pattern"))
    else if isMatch(bs[0].name, develop.value) then Ok(Some(bs[0]))
    else if default.None? then Err(ArgumentNullException("pattern"))
    else if isMatch(bs[0].name, default.value) then Ok(Some(bs[0]))
    else
      assert forall b :: b in bs <==> b == bs[0] || b in bs[1..];
      var r := FirstMatching(bs[1..], develop, default, isMatch);
      assert r.Ok? && r.value.Some? ==> forall i | 0 <= i < |bs| - 1 ::
        NoneMatchBefore(bs[1..], i, develop.value, default.value, isMatch) ==> NoneMatchBefore(bs, i + 1, develop.value, default.value, isMatch);
      r
  }

  /**
   * The fallback branch: the first branch of the repository whose name matches the
   * develop or the default regex; a missing develop or default key throws.
   */
  function Chosen(ctx: Context): (r: Result<Option<BranchHead>>)
    ensures DevelopBranchKey !in ctx.branches ==> r == Err(KeyNotFoundException(DevelopBranchKey))
    ensures DevelopBranchKey in ctx.branches && DefaultBranchKey !in ctx.branches ==>
      r == Err(KeyNotFoundException(DefaultBranchKey))
    ensures r.Ok? && r.value.Some? ==> r.value.value in ctx.repository.branches
    ensures r.Ok? && r.value.Some? && ctx.branches[DevelopBranchKey].regex.Some? && ctx.branches[DefaultBranchKey].regex.Some? ==>
      var bs, develop, default := ctx.repository.branches, ctx.branches[DevelopBranchKey].regex.value, ctx.branches[DefaultBranchKey].regex.value;
      exists i :: 0 <= i < |bs| && bs[i] == r.value.value && NoneMatchBefore(bs, i, develop, default, ctx.isMatch) &&
        (ctx.isMatch(bs[i].name, develop) || ctx.isMatch(bs[i].name, default))
  {
    if DevelopBranchKey !in ctx.branches then Err(KeyNotFoundException(DevelopBranchKey))
    else if DefaultBranchKey !in ctx.branches then Err(KeyNotFoundException(DefaultBranchKey))
    else FirstMatching(ctx.repository.branches, ctx.branches[DevelopBranchKey].regex,
                       ctx.branches[DefaultBranchKey].regex, ctx.isMatch)
  }

  const NoFallbackBranchMessage :=
    "Could not find a '" + DevelopBranchKey + "' or '" + DefaultBranchKey + "' branch, neither locally nor remotely."

  /** The copy of `b` that takes Increment, PreventIncrementOfMergedBranchVersion and TracksReleaseBranches from the parent. */
  function Inherited(b: BranchConfig, parent: Result<BranchConfig>): (r: Result<BranchConfig>)
    ensures r.Err? <==> parent.Err?
    ensures r.Err? ==> r.error == parent.error
    ensures r.Ok? ==> (r.value.increment == parent.value.increment &&
      r.value.preventIncrementOfMergedBranchVersion == parent.value.preventIncrementOfMergedBranchVersion &&
      r.value.tracksReleaseBranches == parent.value.tracksReleaseBranches &&
      r.value == b.(increment := r.value.increment,
                    preventIncrementOfMergedBranchVersion := r.value.preventIncrementOfMergedBranchVersion,
                    tracksReleaseBranches := r.value.tracksReleaseBranches))
  {
    match parent
    case Err(e) => Err(e)
    case Ok(p) => Ok(b.(increment := p.increment,
                        preventIncrementOfMergedBranchVersion := p.preventIncrementOfMergedBranchVersion,
                        tracksReleaseBranches := p.tracksReleaseBranches))
  }

  /** What `InheritBranchConfiguration` has worked out before it picks a parent. */
  datatype Plan = Plan(target: BranchHead, excluded: seq<BranchHead>, parents: seq<BranchHead>)

  /**
   * The first part of `InheritBranchConfiguration`: the merge target, the exclusion list
   * (the given one, or the Inherit-configured branches when none is given) with the
   * new exclusions appended, and the possible parents among the other branches.
   */
  function Prepare(ctx: Context, target: BranchHead, excluded: Option<seq<BranchHead>>): (p: Plan)
    ensures target in p.excluded
    ensures excluded.Some? ==> excluded.value <= p.excluded
    ensures excluded.None? ==> forall b :: b in InheritConfigured(ctx) ==> b in p.excluded
    ensures forall b :: b in p.parents ==> b in ctx.repository.branches && b !in p.excluded
  {
    var repository := ctx.repository;
    var m := if |repository.parents(repository.currentCommit)| == 2 then WhenMultipleParents(repository, target, [target])
             else MergeTarget([target], target);
    assert target in m.excluded;
    var start := if excluded.None? then InheritConfigured(ctx) else excluded.value;
    var list := start + Except(m.excluded, start);
    assert target in list;
    var evaluate := Except(repository.branches, list);
    var branchPoint := MP.CommitWasBranchedFrom(repository, Some(m.target), list).value;
    Plan(m.target, list, PossibleParents(repository, branchPoint, evaluate))
  }

  /** A second preparation over the list the first one left changes nothing. */
  lemma PrepareStable(ctx: Context, target: BranchHead, excluded: Option<seq<BranchHead>>)
    ensures var p := Prepare(ctx, target, excluded); Prepare(ctx, target, Some(p.excluded)) == p
  {
    var repository := ctx.repository;
    var m := if |repository.parents(repository.currentCommit)| == 2 then WhenMultipleParents(repository, target, [target])
             else MergeTarget([target], target);
    var start := if excluded.None? then InheritConfigured(ctx) else excluded.value;
    var list := start + Except(m.excluded, start);
    ExceptAllExcluded(m.excluded, list);
    assert list + Except(m.excluded, list) == list;
  }

  /** The branches of the repository a resolution of `target` may still visit. */
  function Remaining(ctx: Context, target: BranchHead, excluded: Option<seq<BranchHead>>): set<BranchHead>
  {
    set b | b in ctx.repository.branches && b != target && (excluded.None? || b !in excluded.value)
  }

  /** 0 for the fallback branch itself, which resolves without choosing the fallback again. */
  function Rank(ctx: Context, target: BranchHead): nat
  {
    if Chosen(ctx) == Ok(Some(target)) then 0 else 1
  }

  lemma SubsetCard<T>(a: set<T>, b: set<T>)
    requires a <= b
    ensures |a| <= |b|
  {
    assert b == a + (b - a);
  }

  /** Moving on to a branch of the repository never enlarges what remains. */
  lemma RemainingNotLarger(ctx: Context, target: BranchHead, excluded: Option<seq<BranchHead>>, p: Plan, next: BranchHead)
    requires target in p.excluded && (excluded.Some? ==> forall b :: b in excluded.value ==> b in p.excluded)
    ensures |Remaining(ctx, next, Some(p.excluded))| <= |Remaining(ctx, target, excluded)|
    ensures next in ctx.repository.branches && next !in p.excluded ==>
      |Remaining(ctx, next, Some(p.excluded))| < |Remaining(ctx, target, excluded)|
  {
    var a, b := Remaining(ctx, next, Some(p.excluded)), Remaining(ctx, target, excluded);
    SubsetCard(a, b);
    if next in ctx.repository.branches && next !in p.excluded {
      SubsetCard(a, b - {next});
    }
  }

  /** The state of one resolution: its answer and the final contents of the exclusion list it used. */
  datatype Resolution = Resolution(config: Result<BranchConfig>, excluded: seq<BranchHead>)

  /** The list as a value: empty when none was given. */
  function Items(excluded: Option<seq<BranchHead>>): seq<BranchHead>
  {
    if excluded.Some? then excluded.value else []
  }

  /**
   * `GetBranchConfiguration`, with the fallback guard corrected to stop at the branch
   * being resolved as well as at the merge target: a configuration that does not say
   * Inherit is the answer as it is; any other answer is a copy of it with the three
   * inherited settings, and never says Inherit.
   */
  function Get(ctx: Context, target: BranchHead, excluded: Option<seq<BranchHead>>): (r: Resolution)
    ensures r.config.Ok? ==> !InheritsIncrement(r.config.value)
    ensures r.config.Ok? && !InheritsIncrement(MatchingConfig(ctx, target)) ==> r.config.value == MatchingConfig(ctx, target)
    ensures r.config.Ok? ==> r.config.value == MatchingConfig(ctx, target).(
      increment := r.config.value.increment,
      preventIncrementOfMergedBranchVersion := r.config.value.preventIncrementOfMergedBranchVersion,
      tracksReleaseBranches := r.config.value.tracksReleaseBranches)
    ensures !InheritsIncrement(MatchingConfig(ctx, target)) ==> r == Resolution(Ok(MatchingConfig(ctx, target)), Items(excluded))
    decreases |Remaining(ctx, target, excluded)|, Rank(ctx, target), 1
  {
    var b := MatchingConfig(ctx, target);
    if InheritsIncrement(b) then Inherit(ctx, target, b, excluded)
    else Resolution(Ok(b), Items(excluded))
  }

  /**
   * `InheritBranchConfiguration`: exactly one possible parent is resolved and copied
   * from; otherwise the fallback branch is, unless it is the branch itself, in which
   * case only the increment changes, to Patch.
   */
  function Inherit(ctx: Context, target: BranchHead, b: BranchConfig, excluded: Option<seq<BranchHead>>): (r: Resolution)
    ensures r.config.Ok? ==> !InheritsIncrement(r.config.value)
    ensures r.config.Ok? ==> r.config.value == b.(
      increment := r.config.value.increment,
      preventIncrementOfMergedBranchVersion := r.config.value.preventIncrementOfMergedBranchVersion,
      tracksReleaseBranches := r.config.value.tracksReleaseBranches)
    ensures var p := Prepare(ctx, target, excluded);
      |p.parents| != 1 && Chosen(ctx).Ok? && Chosen(ctx).value.Some? &&
      (Chosen(ctx).value.value == target || Chosen(ctx).value.value == p.target) ==>
        r == Resolution(Ok(b.(increment := Some(E.Patch))), p.excluded)
    decreases |Remaining(ctx, target, excluded)|, Rank(ctx, target), 0
  {
    var p := Prepare(ctx, target, excluded);
    if |p.parents| == 1 then
      RemainingNotLarger(ctx, target, excluded, p, p.parents[0]);
      var s := Get(ctx, p.parents[0], Some(p.excluded));
      Resolution(Inherited(b, s.config), s.excluded)
    else
      match Chosen(ctx)
      case Err(e) => Resolution(Err(e), p.excluded)
      case Ok(None) => Resolution(Err(InvalidOperationException(NoFallbackBranchMessage)), p.excluded)
      case Ok(Some(c)) =>
        if c == target || c == p.target then Resolution(Ok(b.(increment := Some(E.Patch))), p.excluded)
        else
          RemainingNotLarger(ctx, target, excluded, p, c);
          var s := Get(ctx, c, Some(p.excluded));
          Resolution(Inherited(b, s.config), s.excluded)
  }

  /**
   * An inheriting branch that is itself the fallback branch, with not exactly one
   * possible parent, takes its own configuration with the Patch increment.
   */
  lemma FallbackOnItself(ctx: Context, target: BranchHead, excluded: Option<seq<BranchHead>>)
    requires InheritsIncrement(MatchingConfig(ctx, target)) && Chosen(ctx) == Ok(Some(target))
    requires |Prepare(ctx, target, excluded).parents| != 1
    ensures Get(ctx, target, excluded) ==
      Resolution(Ok(MatchingConfig(ctx, target).(increment := Some(E.Patch))), Prepare(ctx, target, excluded).excluded)
  {
  }

  /**
   * The calculator's own guard throws when no branch matches the develop or default
   * regex and there is not exactly one possible parent.
   */
  lemma NoFallbackBranchThrows(ctx: Context, target: BranchHead, excluded: Option<seq<BranchHead>>)
    requires InheritsIncrement(MatchingConfig(ctx, target))
    requires DevelopBranchKey in ctx.branches && DefaultBranchKey in ctx.branches
    requires ctx.branches[DevelopBranchKey].regex.Some? && ctx.branches[DefaultBranchKey].regex.Some?
    requires forall b :: b in ctx.repository.branches ==>
      !ctx.isMatch(b.name, ctx.branches[DevelopBranchKey].regex.value) &&
      !ctx.isMatch(b.name, ctx.branches[DefaultBranchKey].regex.value)
    requires |Prepare(ctx, target, excluded).parents| != 1
    ensures Get(ctx, target, excluded).config == Err(InvalidOperationException(NoFallbackBranchMessage))
  {
    assert Chosen(ctx) == Ok(None);
  }

  /** A given exclusion list without repeats keeps none after the new exclusions are appended. */
  lemma PrepareKeepsDistinct(ctx: Context, target: BranchHead, excluded: seq<BranchHead>)
    requires Distinct(excluded)
    ensures Distinct(Prepare(ctx, target, Some(excluded)).excluded)
  {
    var repository := ctx.repository;
    var m := if |repository.parents(repository.currentCommit)| == 2 then WhenMultipleParents(repository, target, [target])
             else MergeTarget([target], target);
    var added := Except(m.excluded, excluded);
    ExceptDistinct(m.excluded, excluded);
    var list := excluded + added;
    forall i, j | 0 <= i < j < |list| ensures list[i] != list[j] {
      if j >= |excluded| && i < |excluded| {
        assert list[j] in added;
        assert list[i] in excluded;
      } else if i >= |excluded| {
        assert list[i] == added[i - |excluded|] && list[j] == added[j - |excluded|];
      }
    }
  }

  /** The first part of `InheritBranchConfiguration`, as a function of the branch and the list it is given. */
  type Planner = (BranchHead, Option<seq<BranchHead>>) -> Plan

  function PlanOf(ctx: Context): Planner
  {
    (t: BranchHead, e: Option<seq<BranchHead>>) => Prepare(ctx, t, e)
  }

  /**
   * `GetBranchConfiguration` as written: the fallback guard compares the fallback
   * branch only with the merge target. `fuel` bounds the depth of the recursion; a
   * resolution deeper than that is a stack overflow. The first part of each step is
   * `plan`, which is `PlanOf(ctx)` for the calculator.
   */
  function AsWrittenGet(ctx: Context, plan: Planner, target: BranchHead, excluded: Option<seq<BranchHead>>, fuel: nat): (r: Result<BranchConfig>)
    ensures r.Ok? ==> !InheritsIncrement(r.value)
    ensures !InheritsIncrement(MatchingConfig(ctx, target)) ==> r == Ok(MatchingConfig(ctx, target))
    decreases fuel, 1
  {
    var b := MatchingConfig(ctx, target);
    if InheritsIncrement(b) then AsWrittenInherit(ctx, plan, target, b, excluded, fuel) else Ok(b)
  }

  /** `InheritBranchConfiguration` as written. */
  function AsWrittenInherit(ctx: Context, plan: Planner, target: BranchHead, b: BranchConfig, excluded: Option<seq<BranchHead>>, fuel: nat): (r: Result<BranchConfig>)
    ensures r.Ok? ==> !InheritsIncrement(r.value)
    ensures fuel == 0 ==> r == Err(StackOverflow)
    decreases fuel, 0
  {
    if fuel == 0 then Err(StackOverflow)
    else
      var p := plan(target, excluded);
      if |p.parents| == 1 then Inherited(b, AsWrittenGet(ctx, plan, p.parents[0], Some(p.excluded), fuel - 1))
      else
        match Chosen(ctx)
        case Err(e) => Err(e)
        case Ok(None) => Err(InvalidOperationException(NoFallbackBranchMessage))
        case Ok(Some(c)) =>
          if c == p.target then Ok(b.(increment := Some(E.Patch)))
          else Inherited(b, AsWrittenGet(ctx, plan, c, Some(p.excluded), fuel - 1))
  }

  /**
   * The fallback branch inherits, its merge target is another branch and it has not
   * exactly one possible parent, and a second preparation over its list gives the
   * same plan: then the resolution as written re-enters itself with the same list at
   * every depth.
   */
  lemma {:induction false} AsWrittenLoops(ctx: Context, plan: Planner, c: BranchHead, excluded: Option<seq<BranchHead>>, p: Plan, fuel: nat)
    requires Chosen(ctx) == Ok(Some(c)) && InheritsIncrement(MatchingConfig(ctx, c))
    requires plan(c, excluded) == p && plan(c, Some(p.excluded)) == p && |p.parents| != 1 && p.target != c
    ensures AsWrittenGet(ctx, plan, c, excluded, fuel) == Err(StackOverflow)
    decreases fuel
  {
    if fuel > 0 {
      AsWrittenLoops(ctx, plan, c, Some(p.excluded), p, fuel - 1);
    }
  }

  /**
   * A merge into the develop branch whose second parent is the head of one other
   * branch, x. The develop configuration says Inherit; only "develop" matches the
   * develop or default regex, as `dev(elop)?(ment)?$` and `default$` do between these
   * two names.
   */
  const SecondParent := Commit("p1", 1, "", "x", [])
  const FirstParent := Commit("p0", 0, "", DevelopBranchKey, [])
  const MergeCommit := Commit("m", 2, "Merge", DevelopBranchKey, [])
  const DevelopHead := BranchHead(DevelopBranchKey, FirstParent)
  const HeadX := BranchHead("x", SecondParent)
  const LoopingBranches := [DevelopHead, HeadX]
  const InheritingDevelop := NewBranchConfig(DevelopBranchKey).(regex := Some(DevelopBranchRegex), increment := Some(E.Inherit))
  const LoopingContext := Context(
    Repository(MergeCommit, DevelopBranchKey,
      LoopingBranches, DevelopHead, MergeCommit,
      (c: Commit) => if c == MergeCommit then [FirstParent, SecondParent] else [],
      (q: LogQuery) => []),
    NoGlobals,
    map[DevelopBranchKey := InheritingDevelop,
        DefaultBranchKey := NewBranchConfig(DefaultBranchKey).(regex := Some(DefaultBranchRegex))],
    (name: string) => if name == DevelopBranchKey then Some(InheritingDevelop) else None,
    (name: string, pattern: string) => name == DevelopBranchKey)

  /** There the second parent heads x alone. */
  lemma LoopingSecondParentHeads()
    ensures MP.HeadsAt(LoopingBranches, SecondParent) == [HeadX]
  {
    MP.HeadsAtAppend([DevelopHead], [HeadX], SecondParent);
    assert [DevelopHead] + [HeadX] == LoopingBranches;
    var h := MP.HeadsAt([HeadX], SecondParent);
    assert HeadX in h && |h| <= 1;
  }

  /** So the merge target is x, and x joins develop in the exclusions. */
  lemma LoopingMergeTarget()
    ensures WhenMultipleParents(LoopingContext.repository, DevelopHead, [DevelopHead]) == MergeTarget([DevelopHead, HeadX], HeadX)
  {
    LoopingSecondParentHeads();
  }

  /** Develop is the one branch there configured to inherit. */
  lemma LoopingInheritConfigured()
    ensures InheritConfigured(LoopingContext) == [DevelopHead]
  {
  }

  /** The list develop's preparation makes holds develop and x, so no branch is left to evaluate. */
  lemma LoopingEvaluated()
    ensures [DevelopHead] + Except([DevelopHead, HeadX], [DevelopHead]) == LoopingBranches
    ensures Except(LoopingBranches, LoopingBranches) == []
  {
    assert [DevelopHead, HeadX][..1] == [DevelopHead] && HeadX != DevelopHead;
    assert Except([DevelopHead], [DevelopHead]) == [];
    assert Except([DevelopHead, HeadX], [DevelopHead]) == [HeadX];
    assert LoopingBranches[..1] == [DevelopHead];
    assert Except([DevelopHead], LoopingBranches) == [];
  }

  /** There the merge target is x, the list holds develop and x and no branch is a possible parent. */
  lemma LoopingPlan()
    ensures Prepare(LoopingContext, DevelopHead, None) == Plan(HeadX, LoopingBranches, [])
  {
    LoopingMergeTarget();
    LoopingInheritConfigured();
    LoopingEvaluated();
  }

  /** Develop is the fallback branch there. */
  lemma LoopingFallback()
    ensures Chosen(LoopingContext) == Ok(Some(DevelopHead))
  {
  }

  /** Resolving develop there as written recurses without end. */
  lemma AsWrittenDoesNotTerminate(fuel: nat)
    ensures AsWrittenGet(LoopingContext, PlanOf(LoopingContext), DevelopHead, None, fuel) == Err(StackOverflow)
  {
    LoopingPlan();
    LoopingFallback();
    PrepareStable(LoopingContext, DevelopHead, None);
    AsWrittenLoops(LoopingContext, PlanOf(LoopingContext), DevelopHead, None, Prepare(LoopingContext, DevelopHead, None), fuel);
  }

  /** Corrected, develop falls back on itself there and takes the Patch increment. */
  lemma LoopingResolved()
    ensures Get(LoopingContext, DevelopHead, None).config == Ok(InheritingDevelop.(increment := Some(E.Patch)))
  {
    LoopingPlan();
    LoopingFallback();
    FallbackOnItself(LoopingContext, DevelopHead, None);
  }

  /** The exclusion list before and after, when a list was given. */
  function Before(excluded: ExclusionList?): Option<seq<BranchHead>>
    reads excluded
  {
    if excluded == null then None else Some(excluded.items)
  }

  /** `IList<IBranchHead> excludedInheritBranches`: one list object shared by every step of a resolution. */
  class ExclusionList {
    var items: seq<BranchHead>

    /** `ToList()` of the given branches. */
    constructor(items: seq<BranchHead>)
      ensures this.items == items
    {
      this.items := items;
    }

    /** `foreach (var b in branches.Except(this)) Add(b)`. */
    method AddMissing(branches: seq<BranchHead>)
      modifies this
      ensures items == old(items) + Except(branches, old(items))
    {
      var toAdd := Except(branches, items);
      ghost var start := items;
      for i := 0 to |toAdd|
        invariant items == start + toAdd[..i]
      {
        items := items + [toAdd[i]];
        assert toAdd[..i + 1] == toAdd[..i] + [toAdd[i]];
      }
      assert toAdd[..|toAdd|] == toAdd;
    }
  }

  /**
   * `GetBranchConfiguration(context, targetBranch, excludedInheritBranches)`, with the
   * corrected fallback guard: the answer and the final list are those of `Get`.
   */
  method GetBranchConfiguration(ctx: Context, target: BranchHead, excluded: ExclusionList?) returns (r: Result<BranchConfig>)
    modifies excluded
    ensures var s := Get(ctx, target, old(Before(excluded)));
      r == s.config && (excluded != null ==> excluded.items == s.excluded)
    decreases |Remaining(ctx, target, Before(excluded))|, Rank(ctx, target), 1
  {
    var b := MatchingConfig(ctx, target);
    if b.increment == Some(E.Inherit) {
      r := InheritBranchConfiguration(ctx, target, b, excluded);
    } else {
      r := Ok(b);
    }
  }

  /**
   * The first part of `InheritBranchConfiguration`: the merge target is worked out,
   * the exclusions are appended to the shared list (made here when none was given),
   * and the possible parents are found among the branches not on it.
   */
  method PrepareInheritance(ctx: Context, target: BranchHead, excluded: ExclusionList?)
    returns (list: ExclusionList, mergeTarget: BranchHead, parents: seq<BranchHead>)
    modifies excluded
    ensures excluded != null ==> list == excluded
    ensures excluded == null ==> fresh(list)
    ensures Plan(mergeTarget, list.items, parents) == Prepare(ctx, target, old(Before(excluded)))
  {
    var repository := ctx.repository;
    var excludedBranches := [target];
    mergeTarget := target;
    if |repository.parents(repository.currentCommit)| == 2 {
      var m := WhenMultipleParents(repository, mergeTarget, excludedBranches);
      excludedBranches, mergeTarget := m.excluded, m.target;
    }
    if excluded == null {
      list := new ExclusionList(InheritConfigured(ctx));
    } else {
      list := excluded;
    }
    list.AddMissing(excludedBranches);
    var evaluate := Except(repository.branches, list.items);
    var branchPoint := MP.CommitWasBranchedFrom(repository, Some(mergeTarget), list.items);
    parents := PossibleParents(repository, branchPoint.value, evaluate);
  }

  /**
   * `InheritBranchConfiguration`: the parent, or else the fallback branch, is resolved
   * with the same list.
   */
  method InheritBranchConfiguration(ctx: Context, target: BranchHead, b: BranchConfig, excluded: ExclusionList?)
    returns (r: Result<BranchConfig>)
    modifies excluded
    ensures var s := Inherit(ctx, target, b, old(Before(excluded)));
      r == s.config && (excluded != null ==> excluded.items == s.excluded)
    decreases |Remaining(ctx, target, Before(excluded))|, Rank(ctx, target), 0
  {
    var list, mergeTarget, parents := PrepareInheritance(ctx, target, excluded);
    ghost var p := Plan(mergeTarget, list.items, parents);
    if |parents| == 1 {
      RemainingNotLarger(ctx, target, old(Before(excluded)), p, parents[0]);
      var parent := GetBranchConfiguration(ctx, parents[0], list);
      return Inherited(b, parent);
    }
    var chosen := Chosen(ctx);
    if chosen.Err? {
      return Err(chosen.error);
    }
    if chosen.value.None? {
      return Err(InvalidOperationException(NoFallbackBranchMessage));
    }
    var c := chosen.value.value;
    if c == target || c == mergeTarget {
      return Ok(b.(increment := Some(E.Patch)));
    }
    RemainingNotLarger(ctx, target, old(Before(excluded)), p, c);
    var fallback := GetBranchConfiguration(ctx, c, list);
    r := Inherited(b, fallback);
  }
}
