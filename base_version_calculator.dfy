/**
 * `BaseVersionCalculator`: collects the strategies' candidates, picks the one whose
 * incremented version is greatest, and settles which commit it counts from.
 */
module BaseVersionCalculators {
  import opened Wrappers
  import opened Commits
  import opened Repositories
  import opened Sequences
  import T = PreReleaseTags
  import B = BuildMetadatas
  import S = SemanticVersions
  import opened BaseVersions

  /**
   * `IBaseVersionStrategy`: the fallback strategy, or a strategy that is not part of
   * this model, given by the candidates it yields.
   */
  datatype Strategy = Fallback | Given(versions: seq<BaseVersion>)

  function GetVersions(s: Strategy, context: Repository): Result<seq<BaseVersion>>
  {
    match s
    case Fallback => FallbackVersions(context)
    case Given(vs) => Ok(vs)
  }

  /**
   * `SelectMany(s => s.GetVersions(context))`: the candidates of each strategy in turn;
   * the first strategy that throws ends the enumeration with its exception.
   */
  function AllVersions(strategies: seq<Strategy>, context: Repository): (r: Result<seq<BaseVersion>>)
    ensures r.Ok? <==> forall i | 0 <= i < |strategies| :: GetVersions(strategies[i], context).Ok?
    ensures r.Err? ==> exists i | 0 <= i < |strategies| :: GetVersions(strategies[i], context) == Err(r.error)
    decreases |strategies|
  {
    if strategies == [] then Ok([])
    else
      match GetVersions(strategies[0], context)
      case Err(e) => Err(e)
      case Ok(first) =>
        var rest := AllVersions(strategies[1..], context);
        assert forall i | 1 <= i < |strategies| :: strategies[i] == strategies[1..][i - 1];
        if rest.Err? then Err(rest.error) else Ok(first + rest.value)
  }

  /** The candidates of two lists of strategies are those of the first list, then those of the second. */
  lemma {:induction false} AllVersionsAppend(s1: seq<Strategy>, s2: seq<Strategy>, context: Repository)
    requires AllVersions(s1, context).Ok? && AllVersions(s2, context).Ok?
    ensures AllVersions(s1 + s2, context) == Ok(AllVersions(s1, context).value + AllVersions(s2, context).value)
    decreases |s1|
  {
    if s1 == [] {
      assert s1 + s2 == s2;
      assert AllVersions(s1, context).value == [];
      assert [] + AllVersions(s2, context).value == AllVersions(s2, context).value;
    } else {
      assert (s1 + s2)[0] == s1[0];
      assert (s1 + s2)[1..] == s1[1..] + s2;
      assert GetVersions(s1[0], context).Ok?;
      AllVersionsAppend(s1[1..], s2, context);
      var first := GetVersions(s1[0], context).value;
      var r1 := AllVersions(s1[1..], context).value;
      var r2 := AllVersions(s2, context).value;
      assert first + (r1 + r2) == (first + r1) + r2;
    }
  }

  /** `BaseVersionTuple`: a candidate with its speculatively incremented version. */
  datatype Candidate = Candidate(incremented: S.SemanticVersion, version: BaseVersion)

  /** `Select(v => new BaseVersionTuple(v.MaybeIncrement(context), v))`. */
  function Pair(vs: seq<BaseVersion>, context: Repository): (r: seq<Candidate>)
    ensures |r| == |vs|
    ensures forall i | 0 <= i < |vs| :: r[i] == Candidate(MaybeIncrement(vs[i], context), vs[i])
    decreases |vs|
  {
    if vs == [] then [] else [Candidate(MaybeIncrement(vs[0], context), vs[0])] + Pair(vs[1..], context)
  }

  /** `GetBaseVersionsByStrategies`: every candidate, in strategy order, with its increment. */
  function GetBaseVersionsByStrategies(strategies: seq<Strategy>, context: Repository): (r: Result<seq<Candidate>>)
    ensures r.Ok? <==> AllVersions(strategies, context).Ok?
    ensures r.Ok? ==> var vs := AllVersions(strategies, context).value;
      |r.value| == |vs| &&
      (forall i | 0 <= i < |vs| :: r.value[i].version == vs[i] && r.value[i].incremented == MaybeIncrement(vs[i], context))
  {
    var vs :- AllVersions(strategies, context);
    Ok(Pair(vs, context))
  }

  // ---------------------------------------------------------------------------
  // The three folds of `HandleBaseVersions`

  /** `v1.IncrementedVersion > v2.IncrementedVersion`. */
  predicate Greater(a: Candidate, b: Candidate)
  {
    S.Operator(S.GreaterThan, Some(a.incremented), Some(b.incremented)) == Ok(true)
  }

  /**
   * `Aggregate((v1, v2) => v1 > v2 ? v1 : v2)`: the position of the kept candidate.
   * Every later candidate compares strictly below it, so of candidates that tie the
   * last one wins.
   */
  function MaxIndex(c: seq<Candidate>): (i: nat)
    requires |c| > 0
    ensures i < |c|
    ensures forall j | i < j < |c| :: Greater(c[i], c[j])
    decreases |c|
  {
    if |c| == 1 then 0
    else
      var k := MaxIndex(c[..|c| - 1]);
      assert forall j | k < j < |c| - 1 :: c[..|c| - 1][j] == c[j];
      if Greater(c[k], c[|c| - 1]) then k else |c| - 1
  }

  /** No candidate compares above the kept one: the fold finds a greatest candidate. */
  lemma {:induction false} MaxIsGreatest(c: seq<Candidate>)
    requires |c| > 0
    ensures forall j | 0 <= j < |c| :: !Greater(c[j], c[MaxIndex(c)])
    decreases |c|
  {
    if |c| > 1 {
      var p := c[..|c| - 1];
      var k := MaxIndex(p);
      var last := c[|c| - 1];
      MaxIsGreatest(p);
      assert forall j | 0 <= j < |c| - 1 :: p[j] == c[j];
      assert k == MaxIndex(c) || MaxIndex(c) == |c| - 1;
      if Greater(c[k], last) {
        S.CompareToAsymmetric(c[k].incremented, last.incremented);
      } else {
        forall j | 0 <= j < |c| - 1
          ensures !Greater(c[j], last)
        {
          assert !Greater(p[j], p[k]);
          S.CompareToTransitive(c[j].incremented, c[k].incremented, last.incremented);
        }
        S.CompareToZero(last.incremented, last.incremented);
      }
    }
  }

  predicate HasSource(c: Candidate)
  {
    c.version.source.Some?
  }

  function Timestamp(c: Candidate): nat
    requires HasSource(c)
  {
    c.version.source.value.timestamp
  }

  /**
   * `Aggregate((v1, v2) => v1.Source.Timestamp < v2.Source.Timestamp ? v1 : v2)`: the
   * earliest source; of sources with the same time the last one wins.
   */
  function OldestIndex(c: seq<Candidate>): (i: nat)
    requires |c| > 0 && forall j | 0 <= j < |c| :: HasSource(c[j])
    ensures i < |c|
    ensures forall j | 0 <= j < |c| :: Timestamp(c[i]) <= Timestamp(c[j])
    ensures forall j | i < j < |c| :: Timestamp(c[i]) < Timestamp(c[j])
    decreases |c|
  {
    if |c| == 1 then 0
    else
      var k := OldestIndex(c[..|c| - 1]);
      assert forall j | 0 <= j < |c| - 1 :: c[..|c| - 1][j] == c[j];
      if Timestamp(c[k]) < Timestamp(c[|c| - 1]) then k else |c| - 1
  }

  /**
   * `x` comes before `y` in `OrderByDescending(v => v.IncrementedVersion)
   * .ThenByDescending(v => v.Version.Source.Timestamp)`: a descending key compares the
   * kept element's key with the new one's, `y.CompareTo(x)`, and `x` is taken when that
   * is below zero; on a tie the timestamps decide the same way.
   */
  predicate Precedes(x: Candidate, y: Candidate)
    requires HasSource(x) && HasSource(y)
  {
    var c := S.CompareTo(y.incremented, Some(x.incremented));
    c < 0 || (c == 0 && Timestamp(y) < Timestamp(x))
  }

  /**
   * `.First()` of that ordering: a scan that keeps the current element and replaces it
   * by a later one only when the later one precedes it.
   */
  function FirstInOrder(c: seq<Candidate>): (i: nat)
    requires |c| > 0 && forall j | 0 <= j < |c| :: HasSource(c[j])
    ensures i < |c|
    ensures forall j | i < j < |c| :: !Precedes(c[j], c[i])
    decreases |c|
  {
    if |c| == 1 then 0
    else
      var k := FirstInOrder(c[..|c| - 1]);
      assert forall j | 0 <= j < |c| - 1 :: c[..|c| - 1][j] == c[j];
      if Precedes(c[|c| - 1], c[k]) then |c| - 1 else k
  }

  /**
   * No two incremented versions have tags that differ only in the case of their names;
   * `SemanticVersion.CompareTo` is then antisymmetric on them.
   */
  predicate NoCaseOnlyTags(c: seq<Candidate>)
  {
    forall j, k | 0 <= j < |c| && 0 <= k < |c| ::
      c[j].incremented.tag == c[k].incremented.tag || T.CompareTo(c[j].incremented.tag, c[k].incremented.tag) != 0
  }

  /** Without case-only tags, `Precedes` is a strict weak order on three candidates. */
  lemma PrecedesStrictWeak(a: Candidate, b: Candidate, c: Candidate)
    requires HasSource(a) && HasSource(b) && HasSource(c)
    requires NoCaseOnlyTags([a, b, c])
    ensures Precedes(a, b) ==> !Precedes(b, a)
    ensures Precedes(a, b) ==> Precedes(a, c) || Precedes(c, b)
  {
    var s := [a, b, c];
    forall p, q | p in s && q in s
      ensures S.CompareTo(p.incremented, Some(q.incremented)) == -S.CompareTo(q.incremented, Some(p.incremented))
    {
      var j :| 0 <= j < 3 && s[j] == p;
      var k :| 0 <= k < 3 && s[k] == q;
      S.CompareToAntisymmetric(p.incremented, q.incremented);
    }
    forall p, q, r | p in s && q in s && r in s &&
        S.CompareTo(p.incremented, Some(q.incremented)) <= 0 && S.CompareTo(q.incremented, Some(r.incremented)) <= 0
      ensures S.CompareTo(p.incremented, Some(r.incremented)) <= 0
    {
      S.CompareToTransitive(p.incremented, q.incremented, r.incremented);
    }
  }

  /**
   * Without case-only tags, the scan's choice precedes every earlier candidate: it is
   * the first candidate of the sorted sequence.
   */
  lemma {:induction false} FirstInOrderIsFirst(c: seq<Candidate>)
    requires |c| > 0 && forall j | 0 <= j < |c| :: HasSource(c[j])
    requires NoCaseOnlyTags(c)
    ensures forall j | 0 <= j < FirstInOrder(c) :: Precedes(c[FirstInOrder(c)], c[j])
    decreases |c|
  {
    if |c| > 1 {
      var p := c[..|c| - 1];
      assert forall j | 0 <= j < |p| :: p[j] == c[j];
      var k := FirstInOrder(p);
      FirstInOrderIsFirst(p);
      var last := c[|c| - 1];
      if Precedes(last, c[k]) {
        forall j | 0 <= j < |c| - 1
          ensures Precedes(last, c[j])
        {
          assert NoCaseOnlyTags([last, c[k], c[j]]) by {
            var s := [last, c[k], c[j]];
            assert forall x | 0 <= x < 3 :: exists y | 0 <= y < |c| :: s[x] == c[y];
          }
          PrecedesStrictWeak(last, c[k], c[j]);
          if j < k {
            assert Precedes(c[k], p[j]);
            PrecedesStrictWeak(c[k], c[j], last);
          } else if k < j {
            assert !Precedes(p[j], p[k]);
          }
        }
      }
    }
  }

  // ---------------------------------------------------------------------------
  // `HandleBaseVersions` and `CalculateVersion`

  const NoElements: string := "Sequence contains no elements"

  /** The candidates with a source whose incremented version is `==` to `max`'s. */
  function Matching(c: seq<Candidate>, max: Candidate): (r: seq<Candidate>)
    ensures forall x :: x in r <==> x in c && HasSource(x) && S.OperatorEquals(Some(x.incremented), Some(max.incremented))
  {
    Filter(c, (x: Candidate) => HasSource(x) && S.OperatorEquals(Some(x.incremented), Some(max.incremented)))
  }

  function WithSource(c: seq<Candidate>): (r: seq<Candidate>)
    ensures forall x :: x in r <==> x in c && HasSource(x)
  {
    Filter(c, HasSource)
  }

  /** `GetResultBaseVersion`: the type, version and flag of one candidate with the given source. */
  function GetResultBaseVersion(max: BaseVersion, source: Option<Commit>): (r: BaseVersion)
    ensures r == max.(source := source)
  {
    BaseVersion(max.typeName, max.version, source, max.shouldIncrement)
  }

  function MaxCandidate(c: seq<Candidate>): Candidate
    requires |c| > 0
  {
    c[MaxIndex(c)]
  }

  function HandleBaseVersions(c: seq<Candidate>): (r: Result<BaseVersion>)
    ensures c == [] ==> r == Err(InvalidOperationException(NoElements))
    ensures r.Ok? ==> r.value.source.Some?
    ensures r.Ok? ==> exists k | 0 <= k < |c| :: c[k].version.source == r.value.source
    ensures r.Ok? ==> exists k | 0 <= k < |c| :: c[k].version == r.value.(source := c[k].version.source)
    ensures c != [] && Matching(c, MaxCandidate(c)) == [] ==>
      var w := WithSource(c);
      r == if w == [] then Err(InvalidOperationException(NoElements))
           else Ok(MaxCandidate(c).version.(source := w[FirstInOrder(w)].version.source))
  {
    if c == [] then Err(InvalidOperationException(NoElements))
    else
      var max := MaxCandidate(c);
      var matching := Matching(c, max);
      if matching != [] then
        var oldest := matching[OldestIndex(matching)];
        assert oldest in c;
        Ok(GetResultBaseVersion(oldest.version, oldest.version.source))
      else
        var withSource := WithSource(c);
        if withSource == [] then Err(InvalidOperationException(NoElements))
        else
          var first := withSource[FirstInOrder(withSource)];
          assert first in c && max in c;
          Ok(GetResultBaseVersion(max.version, first.version.source))
  }

  /** `CalculateVersion`: the chosen base version, which must have a source. */
  function CalculateVersion(strategies: seq<Strategy>, context: Repository): (r: Result<BaseVersion>)
    ensures r.Ok? ==> r.value.source.Some?
  {
    var candidates :- GetBaseVersionsByStrategies(strategies, context);
    var result :- HandleBaseVersions(candidates);
    if result.source.None? then Err(BaseVersionException("Base version should not be null")) else Ok(result)
  }

  /** A candidate's incremented version is `==` to itself, so a maximum with a source always matches. */
  lemma MaxWithSourceMatches(c: seq<Candidate>)
    requires |c| > 0 && HasSource(MaxCandidate(c))
    ensures MaxCandidate(c) in Matching(c, MaxCandidate(c))
  {
  }

  /**
   * When a candidate with a source has an incremented version `==` to the maximum's,
   * the result is such a candidate, unchanged, with the earliest source time among them.
   */
  lemma MatchedCandidateWins(c: seq<Candidate>)
    requires |c| > 0 && Matching(c, MaxCandidate(c)) != []
    ensures var max := MaxCandidate(c); var r := HandleBaseVersions(c);
      exists o :: o in c && HasSource(o) && S.FullEqual(o.incremented, max.incremented) && r == Ok(o.version) &&
        forall x | x in Matching(c, max) :: Timestamp(o) <= Timestamp(x)
  {
    var max := MaxCandidate(c);
    var m := Matching(c, max);
    var o := m[OldestIndex(m)];
    assert o in m;
    forall x | x in m ensures Timestamp(o) <= Timestamp(x) {
      var j :| 0 <= j < |m| && m[j] == x;
    }
  }

  /**
   * When nothing matches, the maximum has no source; the result keeps the maximum's
   * type, version and flag, and borrows the source of the first candidate with a
   * source in descending order: none after it precedes it, and, without case-only
   * tags, it precedes every one before it.
   */
  lemma UnmatchedBorrowsSource(c: seq<Candidate>)
    requires |c| > 0 && Matching(c, MaxCandidate(c)) == [] && WithSource(c) != []
    ensures var max := MaxCandidate(c); var r := HandleBaseVersions(c);
      var w := WithSource(c); var i := FirstInOrder(w);
      !HasSource(max) && w[i] in c && HasSource(w[i]) &&
      r == Ok(BaseVersion(max.version.typeName, max.version.version, w[i].version.source, max.version.shouldIncrement)) &&
      (forall j | i < j < |w| :: !Precedes(w[j], w[i])) &&
      (NoCaseOnlyTags(w) ==> forall j | 0 <= j < i :: Precedes(w[i], w[j]))
  {
    var max := MaxCandidate(c);
    if HasSource(max) {
      MaxWithSourceMatches(c);
    }
    var w := WithSource(c);
    assert w[FirstInOrder(w)] in w;
    if NoCaseOnlyTags(w) {
      FirstInOrderIsFirst(w);
    }
  }

  /** 1.0.0-Beta from `s1`, then 1.0.0-beta from `s2`, then 2.0.0 without a source. */
  function CaseOnlyCandidates(s1: Commit, s2: Commit): seq<Candidate>
  {
    var upper := S.New(1, 0, 0).(tag := T.PreReleaseTag(Some("Beta"), None));
    var lower := S.New(1, 0, 0).(tag := T.PreReleaseTag(Some("beta"), None));
    [Candidate(upper, BaseVersion("A", upper, Some(s1), false)),
     Candidate(lower, BaseVersion("B", lower, Some(s2), false)),
     Candidate(S.New(2, 0, 0), BaseVersion("M", S.New(2, 0, 0), None, false))]
  }

  lemma CaseOnlyMaximum(s1: Commit, s2: Commit)
    ensures var c := CaseOnlyCandidates(s1, s2); MaxCandidate(c) == c[2] && Matching(c, c[2]) == []
  {
  }

  lemma CaseOnlyFirst(s1: Commit, s2: Commit)
    ensures var c := CaseOnlyCandidates(s1, s2); WithSource(c) == c[..2] && FirstInOrder(c[..2]) == 1
  {
    var c := CaseOnlyCandidates(s1, s2);
    assert [c[2]][1..] == [] && Filter([c[2]], HasSource) == [];
    assert [c[1], c[2]][1..] == [c[2]] && Filter([c[1], c[2]], HasSource) == [c[1]];
    assert c[1..] == [c[1], c[2]];
    S.CompareToCaseOnlyTags();
    assert Precedes(c[1], c[0]);
  }

  /**
   * For those candidates nothing matches 2.0.0, and as each tag compares below the other
   * the scan moves on to the second candidate, so the source borrowed is `s2`, whatever
   * the two timestamps.
   */
  lemma CaseOnlyTagsBorrowLater(s1: Commit, s2: Commit)
    ensures HandleBaseVersions(CaseOnlyCandidates(s1, s2)) == Ok(BaseVersion("M", S.New(2, 0, 0), Some(s2), false))
  {
    CaseOnlyMaximum(s1, s2);
    CaseOnlyFirst(s1, s2);
  }

  /** Without any candidate that has a source, the final `First()` throws. */
  lemma NoSourceThrows(c: seq<Candidate>)
    requires |c| > 0 && WithSource(c) == []
    ensures HandleBaseVersions(c) == Err(InvalidOperationException(NoElements))
  {
  }

  /**
   * The maximum is chosen by precedence, the match by full equality: 1.0.0+1 with a
   * source ties with a later 1.0.0 without one, the later one is the maximum, and the
   * first is not matched because its metadata differs.
   */
  lemma MatchingUsesFullEquality(root: Commit)
    ensures var withCount := S.New(1, 0, 0).(meta := B.Create(Some(1), None, None, 0, None));
      var a := Candidate(withCount, BaseVersion("A", withCount, Some(root), false));
      var b := Candidate(S.New(1, 0, 0), BaseVersion("B", S.New(1, 0, 0), None, false));
      HandleBaseVersions([a, b]) == Ok(BaseVersion("B", S.New(1, 0, 0), Some(root), false))
  {
    var withCount := S.New(1, 0, 0).(meta := B.Create(Some(1), None, None, 0, None));
    var a := Candidate(withCount, BaseVersion("A", withCount, Some(root), false));
    var b := Candidate(S.New(1, 0, 0), BaseVersion("B", S.New(1, 0, 0), None, false));
    var c := [a, b];
    assert !Greater(a, b);
    assert MaxCandidate(c) == b;
    assert !S.FullEqual(a.incremented, b.incremented);
    assert a !in Matching(c, b) && b !in Matching(c, b);
    assert Matching(c, b) == [];
    assert WithSource(c) == [a] by {
      assert a in WithSource(c) && b !in WithSource(c);
      assert |WithSource(c)| <= 2;
    }
  }

  /** The check for a null source never fires: the result always carries a candidate's source. */
  lemma NullSourceCheckNeverFires(strategies: seq<Strategy>, context: Repository)
    ensures CalculateVersion(strategies, context) != Err(BaseVersionException("Base version should not be null"))
  {
    var all := AllVersions(strategies, context);
    if all.Err? {
      var i :| 0 <= i < |strategies| && GetVersions(strategies[i], context) == Err(all.error);
      assert strategies[i].Fallback?;
      assert RootCommitMessage(context.tip)[0] == 'C';
    }
  }

  /** With the fallback strategy alone the base version is 0.1.0 at the root commit, not to be incremented. */
  lemma FallbackOnly(context: Repository)
    ensures var root := GetRootCommit(context, context.tip);
      CalculateVersion([Fallback], context) ==
        if root.Ok? then Ok(BaseVersion(FallbackType, S.New(0, 1, 0), Some(root.value), false))
        else Err(root.error)
  {
    var root := GetRootCommit(context, context.tip);
    if root.Ok? {
      var b := BaseVersion(FallbackType, S.New(0, 1, 0), Some(root.value), false);
      assert FallbackVersions(context) == Ok([b]);
      assert [Fallback][1..] == [];
      assert [b] + [] == [b];
      assert AllVersions([Fallback], context) == Ok([b]);
      var c := Pair([b], context);
      assert MaxCandidate(c) == c[0];
      assert c[0] in Matching(c, c[0]);
    }
  }
}
