/**
 * `HgRepositoryMetadataProvider`: the repository questions the calculators ask,
 * two of them remembered per argument in dictionaries the provider fills in place.
 */
module MetadataProviders {
  import opened Wrappers
  import opened Commits
  import opened BranchHeads
  import opened Repositories
  import opened Sequences
  import S = SemanticVersions

  /** The version of one tag when it parses, as a list of none or one. */
  function ParsedTag(tag: string, prefixes: seq<string>): (r: seq<S.SemanticVersion>)
    ensures forall v :: v in r <==> S.TryParse(tag, prefixes) == Some(v)
  {
    match S.TryParse(tag, prefixes)
    case None => []
    case Some(v) => [v]
  }

  /** The versions of the tags, in order, that parse with the prefix; the others are skipped. */
  function ParsedTags(tags: seq<string>, prefixes: seq<string>): (r: seq<S.SemanticVersion>)
    ensures forall v :: v in r <==> exists t :: t in tags && S.TryParse(t, prefixes) == Some(v)
    decreases |tags|
  {
    if tags == [] then []
    else
      assert forall t :: t in tags <==> t == tags[0] || t in tags[1..];
      ParsedTag(tags[0], prefixes) + ParsedTags(tags[1..], prefixes)
  }

  /** Parsing the tags of two lists one after the other keeps both orders. */
  lemma {:induction false} ParsedTagsAppend(s: seq<string>, t: seq<string>, prefixes: seq<string>)
    ensures ParsedTags(s + t, prefixes) == ParsedTags(s, prefixes) + ParsedTags(t, prefixes)
    decreases |s|
  {
    if s == [] {
      assert s + t == t;
    } else {
      assert (s + t)[0] == s[0] && (s + t)[1..] == s[1..] + t;
      ParsedTagsAppend(s[1..], t, prefixes);
      assert ParsedTags(s + t, prefixes) == ParsedTag(s[0], prefixes) + ParsedTags(s[1..] + t, prefixes);
    }
  }

  /** `commit => commit.Tags` over the commits. */
  function CommitTags(commits: seq<Commit>): (r: seq<seq<string>>)
    ensures |r| == |commits| && forall i :: 0 <= i < |commits| ==> r[i] == commits[i].tags
  {
    seq(|commits|, i requires 0 <= i < |commits| => commits[i].tags)
  }

  /** What a cache miss of `GetVersionTagsOnBranch` computes. */
  function VersionTagsOnBranch(repository: Repository, branch: BranchHead, prefixes: seq<string>): (r: seq<S.SemanticVersion>)
    ensures forall v :: v in r <==>
      exists t :: t in Flatten(CommitTags(repository.log(TaggedBranchCommits(branch.name)))) && S.TryParse(t, prefixes) == Some(v)
  {
    ParsedTags(Flatten(CommitTags(repository.log(TaggedBranchCommits(branch.name)))), prefixes)
  }

  /**
   * `GetBranchesContainingCommit`: the branches whose head is the commit, in the order
   * given; a null commit throws. `onlyTrackedBranches` is not read.
   */
  function BranchesContainingCommit(commit: Option<Commit>, branches: seq<BranchHead>, onlyTrackedBranches: bool): (r: Result<seq<BranchHead>>)
    ensures r.Err? <==> commit.None?
    ensures r.Err? ==> r.error == ArgumentNullException("commit")
    ensures r.Ok? ==> |r.value| <= |branches| && forall b :: b in r.value <==> b in branches && b.commit == commit.value
  {
    if commit.None? then Err(ArgumentNullException("commit"))
    else Ok(Filter(branches, (b: BranchHead) => b.commit == commit.value))
  }

  /** The branches of a list whose head is `commit`, in order. */
  function HeadsAt(branches: seq<BranchHead>, commit: Commit): (r: seq<BranchHead>)
    ensures |r| <= |branches|
    ensures forall b :: b in r <==> b in branches && b.commit == commit
  {
    BranchesContainingCommit(Some(commit), branches, true).value
  }

  /** Keeping the heads at a commit distributes over concatenation, so the order is that of the list. */
  lemma HeadsAtAppend(s: seq<BranchHead>, t: seq<BranchHead>, commit: Commit)
    ensures HeadsAt(s + t, commit) == HeadsAt(s, commit) + HeadsAt(t, commit)
  {
    FilterAppend(s, t, (b: BranchHead) => b.commit == commit);
  }

  /** `excludedBranches.Select(b => b.Name)`. */
  function Names(branches: seq<BranchHead>): (r: seq<string>)
    ensures |r| == |branches| && forall i :: 0 <= i < |branches| ==> r[i] == branches[i].name
  {
    seq(|branches|, i requires 0 <= i < |branches| => branches[i].name)
  }

  /**
   * `FindCommitWasBranchedFrom`: the first parent of the branch's head that lies on
   * none of the excluded branches, or null when there is none; a null branch throws.
   */
  function CommitWasBranchedFrom(repository: Repository, branch: Option<BranchHead>, excluded: seq<BranchHead>): (r: Result<Option<Commit>>)
    ensures r.Err? <==> branch.None?
    ensures r.Err? ==> r.error == ArgumentNullException("branch")
    ensures r.Ok? ==> var q := repository.log(BranchParents(branch.value.name, Names(excluded)));
      (r.value.None? <==> q == []) && (r.value.Some? ==> r.value.value == q[0])
  {
    if branch.None? then Err(ArgumentNullException("branch"))
    else
      var possible := repository.log(BranchParents(branch.value.name, Names(excluded)));
      if |possible| > 1 then Ok(Some(possible[0]))
      else if |possible| == 1 then Ok(Some(possible[0]))
      else Ok(None)
  }

  /** `Log(...).FirstOrDefault()` of the merge-base query, which names `branch` on both sides. */
  function MergeBaseOf(repository: Repository, branch: BranchHead): (r: Option<Commit>)
    ensures var q := repository.log(CommonAncestorOf(branch.name, branch.name));
      (r.None? <==> q == []) && (r.Some? ==> r.value == q[0])
  {
    var q := repository.log(CommonAncestorOf(branch.name, branch.name));
    if q == [] then None else Some(q[0])
  }

  class MetadataProvider {
    const repository: Repository
    /** `_semanticVersionTagsOnBranchCache`. */
    var tagsCache: map<BranchHead, seq<S.SemanticVersion>>
    /** `_mergeBaseCache`, keyed by the (branch, otherBranch) pair. */
    var mergeBaseCache: map<(BranchHead, BranchHead), Option<Commit>>
    /** The tag prefix each cached tag list was computed with. */
    ghost var tagPrefixes: map<BranchHead, seq<string>>
    /** How many log queries the provider has sent to the repository. */
    ghost var queries: nat

    /** Every cached answer is what the repository gives for its key. */
    ghost predicate Valid()
      reads this
    {
      tagPrefixes.Keys == tagsCache.Keys &&
      (forall b :: b in tagsCache ==> tagsCache[b] == VersionTagsOnBranch(repository, b, tagPrefixes[b])) &&
      (forall k :: k in mergeBaseCache ==> mergeBaseCache[k] == MergeBaseOf(repository, k.0))
    }

    /** Both caches start empty. */
    constructor(repository: Repository)
      ensures Valid() && this.repository == repository
      ensures tagsCache == map[] && mergeBaseCache == map[] && queries == 0
    {
      this.repository := repository;
      tagsCache := map[];
      mergeBaseCache := map[];
      tagPrefixes := map[];
      queries := 0;
    }

    /**
     * `GetVersionTagsOnBranch`: a cached branch returns the stored list without a query,
     * whatever the prefix; otherwise the parsed tags of the branch's tagged commits are
     * stored and returned.
     */
    method GetVersionTagsOnBranch(branch: BranchHead, prefixes: seq<string>) returns (r: seq<S.SemanticVersion>)
      requires Valid()
      modifies this`tagsCache, this`tagPrefixes, this`queries
      ensures Valid()
      ensures branch in old(tagsCache) ==> r == old(tagsCache)[branch] && unchanged(this)
      ensures branch !in old(tagsCache) ==>
        r == VersionTagsOnBranch(repository, branch, prefixes) &&
        tagsCache == old(tagsCache)[branch := r] && tagPrefixes == old(tagPrefixes)[branch := prefixes] &&
        queries == old(queries) + 1
      ensures r == VersionTagsOnBranch(repository, branch, tagPrefixes[branch])
    {
      if branch in tagsCache {
        return tagsCache[branch];
      }
      queries := queries + 1;
      var tags := Flatten(CommitTags(repository.log(TaggedBranchCommits(branch.name))));
      r := ParsedTags(tags, prefixes);
      tagsCache := tagsCache[branch := r];
      tagPrefixes := tagPrefixes[branch := prefixes];
    }

    /**
     * `FindMergeBase`: memoised by the pair; the query names `branch` twice, so the
     * answer is the first common ancestor of `branch` with itself.
     */
    method FindMergeBase(branch: BranchHead, otherBranch: BranchHead) returns (r: Option<Commit>)
      requires Valid()
      modifies this`mergeBaseCache, this`queries
      ensures Valid()
      ensures r == MergeBaseOf(repository, branch)
      ensures (branch, otherBranch) in old(mergeBaseCache) ==> unchanged(this)
      ensures (branch, otherBranch) !in old(mergeBaseCache) ==>
        mergeBaseCache == old(mergeBaseCache)[(branch, otherBranch) := r] && queries == old(queries) + 1
    {
      var key := (branch, otherBranch);
      if key in mergeBaseCache {
        return mergeBaseCache[key];
      }
      queries := queries + 1;
      var q := repository.log(CommonAncestorOf(branch.name, branch.name));
      r := if q == [] then None else Some(q[0]);
      mergeBaseCache := mergeBaseCache[key := r];
    }
  }

  /** Asking twice for the tags of a branch sends one query at most and gives the same list. */
  method TagsTwice(p: MetadataProvider, branch: BranchHead, prefixes: seq<string>, otherPrefixes: seq<string>)
    returns (first: seq<S.SemanticVersion>, second: seq<S.SemanticVersion>)
    requires p.Valid()
    modifies p
    ensures second == first && p.queries <= old(p.queries) + 1
  {
    first := p.GetVersionTagsOnBranch(branch, prefixes);
    second := p.GetVersionTagsOnBranch(branch, otherPrefixes);
  }

  /** The merge base does not depend on the other branch. */
  method MergeBaseIgnoresOther(p: MetadataProvider, branch: BranchHead, one: BranchHead, another: BranchHead)
    returns (first: Option<Commit>, second: Option<Commit>)
    requires p.Valid()
    modifies p
    ensures first == second
  {
    first := p.FindMergeBase(branch, one);
    second := p.FindMergeBase(branch, another);
  }
}
