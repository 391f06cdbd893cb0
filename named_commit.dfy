/**
 * `HgNamedCommit`: a name with a commit that is either given or looked up on first
 * read and remembered, as `LazyInitializer.EnsureInitialized` does.
 */
module NamedCommits {
  import opened Wrappers
  import opened Commits

  /** The message of the exception `EnsureInitialized` throws when the factory returns null. */
  const FactoryReturnedNull: string := "ValueFactory returned null."

  class NamedCommit {
    /** `Name`: fixed by the constructor. */
    const name: string
    /** `_commit`: null until it is given or looked up. */
    var commit: Option<Commit>
    /** What `_commitFactory` returns when it is called; null is `None`. */
    const lookup: Option<Commit>
    /** How many times the factory has been called. */
    ghost var lookups: nat

    /**
     * `HgNamedCommit(name, commit)`: the factory `() => _commit` is called only while
     * `_commit` is null, so it always answers null.
     */
    constructor FromCommit(name: string, commit: Option<Commit>)
      ensures this.name == name && this.commit == commit && lookup == None && lookups == 0
    {
      this.name := name;
      this.commit := commit;
      this.lookup := None;
      lookups := 0;
    }

    /** `HgNamedCommit(name, commitLookup)`: nothing is looked up yet. */
    constructor FromLookup(name: string, lookup: Option<Commit>)
      ensures this.name == name && commit == None && this.lookup == lookup && lookups == 0
    {
      this.name := name;
      this.commit := None;
      this.lookup := lookup;
      lookups := 0;
    }

    /**
     * The `Commit` property: a stored commit is returned without a lookup; otherwise the
     * factory is called once, a non-null answer is stored and returned, and a null
     * answer throws.
     */
    method GetCommit() returns (r: Result<Commit>)
      modifies this`commit, this`lookups
      ensures old(commit).Some? ==> r == Ok(old(commit).value) && commit == old(commit) && lookups == old(lookups)
      ensures old(commit).None? ==> lookups == old(lookups) + 1 && commit == lookup
      ensures old(commit).None? && lookup.Some? ==> r == Ok(lookup.value)
      ensures old(commit).None? && lookup.None? ==> r == Err(InvalidOperationException(FactoryReturnedNull))
    {
      if commit.Some? {
        return Ok(commit.value);
      }
      lookups := lookups + 1;
      var value := lookup;
      if value.None? {
        return Err(InvalidOperationException(FactoryReturnedNull));
      }
      commit := value;
      r := Ok(value.value);
    }
  }

  /** Two reads of `Commit` give the same answer, and the lookup runs at most twice. */
  method ReadTwice(c: NamedCommit) returns (first: Result<Commit>, second: Result<Commit>)
    modifies c
    ensures second == first
    ensures first.Ok? ==> c.commit == Some(first.value)
    ensures c.lookups <= old(c.lookups) + 2
    ensures old(c.commit).Some? || c.lookup.Some? ==> c.lookups <= old(c.lookups) + 1
  {
    first := c.GetCommit();
    second := c.GetCommit();
  }

  /** A commit given to the eager constructor is returned, and no lookup happens. */
  method EagerCommitIsReturned(name: string, commit: Commit) returns (r: Result<Commit>)
    ensures r == Ok(commit)
  {
    var c := new NamedCommit.FromCommit(name, Some(commit));
    r := c.GetCommit();
    assert c.lookups == 0;
  }

  /** A null commit given to the eager constructor throws on read. */
  method EagerNullCommitThrows(name: string) returns (r: Result<Commit>)
    ensures r == Err(InvalidOperationException(FactoryReturnedNull))
  {
    var c := new NamedCommit.FromCommit(name, None);
    r := c.GetCommit();
  }
}
