/** A commit of the repository, as the version calculation reads it. */
module Commits {

  /**
   * `ICommit`: the hash identifies the commit; the timestamp is a count of ticks, and
   * the tags are the names of the tags placed on the commit.
   */
  datatype Commit = Commit(hash: string, timestamp: nat, message: string, branch: string, tags: seq<string>)
}

/**
 * The Mercurial repository, seen only through what the version calculation asks of it.
 * Every answer that comes from Mercurial is a given of the repository value.
 */
module Repositories {
  import opened Commits
  import opened BranchHeads

  /** The log queries the modelled code builds, each named after what it selects. */
  datatype LogQuery =
      /** `AncestorsOf(Single(hash)).Limit(1)`. */
    | AncestorsOfLimit1(hash: string)
      /** `TaggedBranchCommits(branch)`. */
    | TaggedBranchCommits(branch: string)
      /** `CommonAncestorOf(ByBranch(left), ByBranch(right))`. */
    | CommonAncestorOf(left: string, right: string)
      /** `ByBranch(branch).Limit(1).Parents().Except(excluded)`. */
    | BranchParents(branch: string, excluded: seq<string>)

  /**
   * `IHgRepository`: the tip, the current branch name, the named branches with their
   * heads, the working copy's branch and commit, the parents of each commit and the
   * answer to each log query.
   */
  datatype Repository = Repository(
    tip: Commit,
    branch: string,
    branches: seq<BranchHead>,
    currentBranch: BranchHead,
    currentCommit: Commit,
    parents: Commit -> seq<Commit>,
    log: LogQuery -> seq<Commit>)
}
