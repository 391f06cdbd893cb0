/**
 * `HgMergeMessage`: what a merge commit's message says about the merge. The text after
 * the last "into" names the target branch; one of three fixed message forms names the
 * merged branch, and the pull-request form also flags the merge as a pull request and
 * carries its number; the merged branch's name, with its `word/` and `word-` segments
 * and the tag prefix taken off, may start with a version.
 *
 * The three forms are .NET regular expressions with `IgnoreCase`; they are written out
 * here as the character tests they perform, with ASCII case folding, ASCII `\d` and an
 * ASCII `\w` (letters, digits and '_').
 */
module MergeMessages {
  import opened Wrappers
  import opened Text
  import S = SemanticVersions
  import P = TagPrefixes
  import C = Configurations

  /** What the constructor computes. */
  datatype MergeMessage = MergeMessage(
    targetBranch: Option<string>,
    mergedBranch: string,
    isMergedPullRequest: bool,
    pullRequestNumber: Option<int>,
    version: Option<S.SemanticVersion>)

  /** `s` starts with `p`, ignoring ASCII case. */
  predicate StartsWithIgnoreCase(s: string, p: string)
  {
    |p| <= |s| && EqualsIgnoreCase(s[..|p|], p)
  }

  /** Text that ends with "into", ignoring case. */
  predicate EndsWithInto(m: string)
  {
    OccursAt(m, "into", |m| - 4)
  }

  /**
   * `TargetBranch`: the text from five characters after the last "into" (ignoring
   * case), or null when there is none. When "into" ends the message, `Substring` is
   * given a start beyond the end and throws.
   */
  function TargetBranch(m: string): (r: Result<Option<string>>)
    ensures r.Err? <==> EndsWithInto(m)
    ensures r.Err? ==> r.error == ArgumentOutOfRangeException
    ensures r == Ok(None) <==> forall j :: !OccursAt(m, "into", j)
    ensures r.Ok? && r.value.Some? ==> exists i :: (OccursAt(m, "into", i) && i + 5 <= |m| && r.value.value == m[i + 5..] &&
      forall j :: i < j ==> !OccursAt(m, "into", j))
  {
    match LastIndexOfIgnoreCase(m, "into")
    case None => Ok(None)
    case Some(i) =>
      if i + 5 <= |m| then
        assert !OccursAt(m, "into", |m| - 4);
        Ok(Some(m[i + 5..]))
      else
        Err(ArgumentOutOfRangeException)
  }

  /** A suffix of a suffix of `s` is a suffix of `s`. */
  lemma SuffixOfSuffix(s: string, k: nat, r: string)
    requires k <= |s| && |r| <= |s| - k && r == s[k..][|s| - k - |r|..]
    ensures r == s[|s| - |r|..]
  {
  }

  /** The length of the rest of the line at `i`: `.*` stops before a '\n'. */
  function LineRun(s: string, i: nat): (n: nat)
    requires i <= |s|
    ensures i + n <= |s| && '\n' !in s[i..i + n]
    ensures i + n < |s| ==> s[i + n] == '\n'
  {
    RunWithoutExcludes(s, i, '\n');
    RunWithout(s, i, '\n')
  }

  /** The `Merge (branch|tag) '` the message starts with, or "". */
  function MergeHead(m: string): (h: string)
    ensures h == "" || ((h == "merge branch '" || h == "merge tag '") && StartsWithIgnoreCase(m, h))
    ensures h == "" <==> !StartsWithIgnoreCase(m, "merge branch '") && !StartsWithIgnoreCase(m, "merge tag '")
  {
    if StartsWithIgnoreCase(m, "merge branch '") then "merge branch '"
    else if StartsWithIgnoreCase(m, "merge tag '") then "merge tag '" else ""
  }

  /** `^Merge (branch|tag) '(?<Branch>[^']*)'`: the text between the quotes. */
  function MergeBranchForm(m: string): (r: Option<string>)
    ensures MergeHead(m) == "" ==> r.None?
    ensures r.Some? ==> var h := MergeHead(m);
      |h| + |r.value| < |m| && r.value == m[|h|..|h| + |r.value|] && m[|h| + |r.value|] == '\'' && '\'' !in r.value
  {
    var head := MergeHead(m);
    if head == "" then None
    else
      var n := RunWithout(m, |head|, '\'');
      if |head| + n < |m| then
        RunWithoutExcludes(m, |head|, '\'');
        Some(m[|head|..|head| + n])
      else None
  }

  /** `^Finish (?<Branch>.*)`: the rest of the first line. */
  function FinishForm(m: string): (r: Option<string>)
    ensures r.Some? <==> StartsWithIgnoreCase(m, "finish ")
    ensures r.Some? ==> ('\n' !in r.value && 7 + |r.value| <= |m| && r.value == m[7..7 + |r.value|] &&
      (7 + |r.value| < |m| ==> m[7 + |r.value|] == '\n'))
  {
    if StartsWithIgnoreCase(m, "finish ") then Some(m[7..7 + LineRun(m, 7)]) else None
  }

  /** The two groups of the pull-request form. */
  datatype PullRequest = PullRequest(number: string, source: string)

  /**
   * `^Merge pull request #(?<PullRequestNumber>\d*) (from|in) (?<Source>.*)`: the digit
   * run after '#' (the space after it forces the whole run), then " from " or " in ",
   * then the rest of the line.
   */
  function PullRequestForm(m: string): (r: Option<PullRequest>)
    ensures r.Some? <==> StartsWithIgnoreCase(m, "merge pull request #") && Separator(m[20 + DigitRun(m, 20)..]) > 0
    ensures r.Some? ==> var j := 20 + |r.value.number|;
      j <= |m| && r.value.number == m[20..j] && AllDigits(r.value.number) && (j < |m| ==> !IsDigit(m[j]))
    ensures r.Some? ==> var k := 20 + |r.value.number| + Separator(m[20 + |r.value.number|..]);
      k + |r.value.source| <= |m| && r.value.source == m[k..k + |r.value.source|] && '\n' !in r.value.source &&
      (k + |r.value.source| < |m| ==> m[k + |r.value.source|] == '\n')
  {
    if !StartsWithIgnoreCase(m, "merge pull request #") then None
    else
      var j := 20 + DigitRun(m, 20);
      SliceDigits(m, 20, j);
      var sep := Separator(m[j..]);
      if sep == 0 then None
      else Some(PullRequest(m[20..j], m[j + sep..j + sep + LineRun(m, j + sep)]))
  }

  /** The length of the separator a text starts with: " from " is tried before " in ", 0 for neither. */
  function Separator(t: string): (n: nat)
    ensures n == 6 <==> StartsWithIgnoreCase(t, " from ")
    ensures n == 4 <==> !StartsWithIgnoreCase(t, " from ") && StartsWithIgnoreCase(t, " in ")
    ensures n == 0 || n == 4 || n == 6
  {
    if StartsWithIgnoreCase(t, " from ") then 6
    else if StartsWithIgnoreCase(t, " in ") then 4 else 0
  }

  /** `int.TryParse` of a run of ASCII digits: fails when empty or beyond `int.MaxValue`. */
  function ParseInt32(d: string): (r: Option<int>)
    requires AllDigits(d)
    ensures r.Some? <==> d != [] && DigitsValue(d) <= Int32Max
    ensures r.Some? ==> r.value == DigitsValue(d)
  {
    TryParseInt(d)
  }

  /** What `ParseBranch` returns, with the two properties it sets on the way. */
  datatype BranchMatch = BranchMatch(branch: string, isMergedPullRequest: bool, pullRequestNumber: Option<int>)

  /**
   * `ParseBranch`: the forms are tried in order: merge branch or tag, Finish, pull
   * request; with none of them the branch is "". Only the pull-request form sets the
   * flag, and the number only when its digits parse.
   */
  function ParseBranch(m: string): (r: BranchMatch)
    ensures r.isMergedPullRequest <==> MergeBranchForm(m).None? && FinishForm(m).None? && PullRequestForm(m).Some?
    ensures r.pullRequestNumber.Some? ==> r.isMergedPullRequest
    ensures r.branch == if MergeBranchForm(m).Some? then MergeBranchForm(m).value
      else if FinishForm(m).Some? then FinishForm(m).value
      else if PullRequestForm(m).Some? then PullRequestForm(m).value.source
      else ""
  {
    match MergeBranchForm(m)
    case Some(b) => BranchMatch(b, false, None)
    case None =>
      match FinishForm(m)
      case Some(b) => BranchMatch(b, false, None)
      case None =>
        match PullRequestForm(m)
        case Some(pr) => BranchMatch(pr.source, true, ParseInt32(pr.number))
        case None => BranchMatch("", false, None)
  }

  /** `\w` for ASCII text. */
  predicate IsWordChar(c: char)
  {
    'a' <= c <= 'z' || 'A' <= c <= 'Z' || IsDigit(c) || c == '_'
  }

  /** The length of the run of word characters at `i`. */
  function WordRun(s: string, i: nat): (n: nat)
    requires i <= |s|
    ensures i + n <= |s|
    ensures i + n < |s| ==> !IsWordChar(s[i + n])
    decreases |s| - i
  {
    if i < |s| && IsWordChar(s[i]) then WordRun(s, i + 1) + 1 else 0
  }

  /** `s` has a segment `\w+[-/]` at `i`. */
  predicate SegmentAt(s: string, i: nat)
    requires i <= |s|
  {
    var n := WordRun(s, i);
    0 < n && i + n < |s| && (s[i + n] == '-' || s[i + n] == '/')
  }

  /**
   * `(\w+[-/])*` matches all of `s[i..k]`: it is a sequence of word runs, each followed
   * by '-' or '/'.
   */
  predicate IsSegments(s: string, i: nat, k: nat)
    requires i <= k <= |s|
    decreases k - i
  {
    i == k || exists n | 0 < n && i + n < k :: SegmentHead(s, i, n) && IsSegments(s, i + n + 1, k)
  }

  /** `s` has `n` word characters at `i` and then '-' or '/'. */
  predicate SegmentHead(s: string, i: nat, n: nat)
    requires i + n < |s|
  {
    AllWord(s, i, n) && (s[i + n] == '-' || s[i + n] == '/')
  }

  /** The `n` characters at `i` are word characters. */
  predicate AllWord(s: string, i: nat, n: nat)
    requires i + n <= |s|
    decreases n
  {
    n == 0 || (IsWordChar(s[i]) && AllWord(s, i + 1, n - 1))
  }

  /** Where the segments from `i` on end. */
  function SegmentsEnd(s: string, i: nat): (k: nat)
    requires i <= |s|
    ensures i <= k <= |s| && !SegmentAt(s, k)
    decreases |s| - i
  {
    if SegmentAt(s, i) then SegmentsEnd(s, i + WordRun(s, i) + 1) else i
  }

  /**
   * `Regex.Replace(s, @"^(\w+[-/])*", "")`: the leading segments taken off. Each `\w+`
   * must take its whole word run, since the separator is not a word character.
   */
  function StripSegments(s: string): (r: string)
    ensures |r| <= |s| && r == s[|s| - |r|..]
    ensures !SegmentAt(s, |s| - |r|)
  {
    s[SegmentsEnd(s, 0)..]
  }

  /** No alternative before the `i`-th is a prefix of `s`. */
  predicate NoEarlierPrefix(s: string, prefixes: seq<string>, i: nat)
    requires i <= |prefixes|
  {
    forall j | 0 <= j < i :: !(prefixes[j] <= s)
  }

  /** The first alternative, in the order they are tried, that `s` starts with. */
  function FirstPrefix(s: string, prefixes: seq<string>): (r: Option<nat>)
    ensures r.Some? ==> r.value < |prefixes| && prefixes[r.value] <= s && NoEarlierPrefix(s, prefixes, r.value)
    ensures r.None? <==> forall i :: 0 <= i < |prefixes| ==> !(prefixes[i] <= s)
    decreases |prefixes|
  {
    if prefixes == [] then None
    else if prefixes[0] <= s then Some(0)
    else
      assert forall i :: 1 <= i < |prefixes| ==> prefixes[1..][i - 1] == prefixes[i];
      match FirstPrefix(s, prefixes[1..])
      case None => None
      case Some(i) =>
        Some(i + 1)
  }

  /**
   * The scan `Regex.Replace` makes past the start of the text, where `^` cannot match: at
   * each place the first alternative that matches there is removed and the scan goes on
   * after it; where none matches, or only an empty one, one character is kept.
   */
  function RemoveAll(s: string, prefixes: seq<string>): (r: string)
    ensures |r| <= |s|
    decreases |s|
  {
    if s == [] then []
    else
      var k := FirstPrefix(s, prefixes);
      if k.Some? && prefixes[k.value] != [] then RemoveAll(s[|prefixes[k.value]|..], prefixes)
      else [s[0]] + RemoveAll(s[1..], prefixes)
  }

  /**
   * `Regex.Replace(s, "^" + tagPrefix, "")`: at the start every alternative is tried in
   * order; past it only the unanchored ones are, wherever they match.
   */
  function StripTagPrefix(s: string, u: P.Anchoring): (r: string)
    ensures |r| <= |s|
    ensures u.anywhere == [] && (forall i :: 0 <= i < |u.anchored| ==> !(u.anchored[i] <= s)) ==> r == s
    ensures u.anywhere == [] && (exists i :: 0 <= i < |u.anchored| && u.anchored[i] <= s) ==>
      exists i :: 0 <= i < |u.anchored| && u.anchored[i] <= s && NoEarlierPrefix(s, u.anchored, i) && r == s[|u.anchored[i]|..]
  {
    var all := u.anchored + u.anywhere;
    var k := FirstPrefix(s, all);
    RemoveNothingFrom(s);
    assert u.anywhere == [] ==> all == u.anchored;
    if k.Some? && all[k.value] != [] then RemoveAll(s[|all[k.value]|..], u.anywhere)
    else if s == [] then [] else [s[0]] + RemoveAll(s[1..], u.anywhere)
  }

  /** With no alternative to look for, the scan keeps the text. */
  lemma {:induction false} RemoveNothing(s: string)
    ensures RemoveAll(s, []) == s
    decreases |s|
  {
    if s != [] {
      RemoveNothing(s[1..]);
    }
  }

  lemma RemoveNothingFrom(s: string)
    ensures forall j :: 0 <= j <= |s| ==> RemoveAll(s[j..], []) == s[j..]
  {
    forall j | 0 <= j <= |s| ensures RemoveAll(s[j..], []) == s[j..] {
      RemoveNothing(s[j..]);
    }
  }

  /** The scan keeps a text in which no non-empty alternative ever matches. */
  lemma {:induction false} RemoveAllUnchanged(s: string, prefixes: seq<string>)
    requires forall k, i :: 0 <= k < |s| && 0 <= i < |prefixes| && prefixes[i] != [] ==> !(prefixes[i] <= s[k..])
    ensures RemoveAll(s, prefixes) == s
    decreases |s|
  {
    if s != [] {
      assert forall k :: 0 <= k < |s| - 1 ==> s[1..][k..] == s[k + 1..];
      RemoveAllUnchanged(s[1..], prefixes);
      assert s[0..] == s;
    }
  }

  /** Single-character alternatives are removed wherever they occur: none is left. */
  lemma {:induction false} RemoveAllChars(s: string, prefixes: seq<string>)
    requires forall i :: 0 <= i < |prefixes| ==> |prefixes[i]| == 1
    ensures forall i, k :: 0 <= i < |prefixes| && 0 <= k < |RemoveAll(s, prefixes)| ==> RemoveAll(s, prefixes)[k] != prefixes[i][0]
    ensures forall k :: 0 <= k < |RemoveAll(s, prefixes)| ==> RemoveAll(s, prefixes)[k] in s
    decreases |s|
  {
    if s != [] {
      var k := FirstPrefix(s, prefixes);
      if k.Some? {
        RemoveAllChars(s[1..], prefixes);
        assert s[|prefixes[k.value]|..] == s[1..];
      } else {
        RemoveAllChars(s[1..], prefixes);
        forall i | 0 <= i < |prefixes| ensures s[0] != prefixes[i][0] {
          assert !(prefixes[i] <= s);
          assert prefixes[i] == [prefixes[i][0]];
        }
        var r := [s[0]] + RemoveAll(s[1..], prefixes);
        forall j | 0 <= j < |r| ensures r[j] in s {
          if j > 0 { assert r[j] == RemoveAll(s[1..], prefixes)[j - 1]; }
        }
      }
    }
  }

  /** The length of the run of '.' at `i`. */
  function DotRun(s: string, i: nat): (n: nat)
    requires i <= |s|
    ensures i + n <= |s|
    ensures i + n < |s| ==> s[i + n] != '.'
    decreases |s| - i
  {
    if i < |s| && s[i] == '.' then DotRun(s, i + 1) + 1 else 0
  }

  /** Everything `DotRun` measures is a '.'. */
  lemma {:induction false} DotRunDots(s: string, i: nat)
    requires i <= |s|
    ensures forall k :: i <= k < i + DotRun(s, i) ==> s[k] == '.'
    decreases |s| - i
  {
    if i < |s| && s[i] == '.' {
      DotRunDots(s, i + 1);
    }
  }

  /** Digits and dots only. */
  predicate DigitsAndDots(s: string)
  {
    forall k :: 0 <= k < |s| ==> IsDigit(s[k]) || s[k] == '.'
  }

  /**
   * `(\.*\d+)*` from `i`: each round takes the dots and then needs a digit, so the
   * match ends after the last digit of the run of digits and dots.
   */
  function MoreGroups(s: string, i: nat): (n: nat)
    requires i <= |s|
    ensures i <= n <= |s|
    decreases |s| - i
  {
    var dots := DotRun(s, i);
    var digits := DigitRun(s, i + dots);
    if digits == 0 then i else MoreGroups(s, i + dots + digits)
  }

  /**
   * One step of `MoreGroups` at `i`: either no `\.*\d+` round starts there and it stops
   * (`j == i`), or it takes one round of digits and dots ending on a digit, up to `j`,
   * and goes on from there.
   */
  lemma MoreGroupsRound(s: string, i: nat) returns (j: nat)
    requires i <= |s|
    ensures j == i ==> MoreGroups(s, i) == i && NoRoundAt(s, i) && (i < |s| ==> !IsDigit(s[i]))
    ensures j != i ==> i < j <= |s| && MoreGroups(s, i) == MoreGroups(s, j) && IsDigit(s[j - 1])
    ensures j != i ==> j == i + DotRun(s, i) + DigitRun(s, i + DotRun(s, i))
  {
    var dots := DotRun(s, i);
    var digits := DigitRun(s, i + dots);
    if digits == 0 {
      if dots > 0 {
        assert s[i] == '.';
      }
      j := i;
    } else {
      assert MoreGroups(s, i) == MoreGroups(s, i + DotRun(s, i) + DigitRun(s, i + DotRun(s, i)));
      j := i + dots + digits;
      assert IsDigit(s[j - 1]);
    }
  }

  /** What `MoreGroups` passes over is digits and dots. */
  lemma {:induction false} MoreGroupsRun(s: string, i: nat)
    requires i <= |s|
    ensures forall k :: i <= k < MoreGroups(s, i) ==> IsDigit(s[k]) || s[k] == '.'
    decreases |s| - i
  {
    var j := MoreGroupsRound(s, i);
    if j != i {
      MoreGroupsRun(s, j);
      var dots := DotRun(s, i);
      DotRunDots(s, i);
      assert forall k :: i + dots <= k < j ==> IsDigit(s[k]);
    }
  }

  /** `MoreGroups` stops on a digit, unless it stops where it began. */
  lemma {:induction false} MoreGroupsLast(s: string, i: nat)
    requires i <= |s|
    ensures var n := MoreGroups(s, i); n > i ==> IsDigit(s[n - 1])
    decreases |s| - i
  {
    var j := MoreGroupsRound(s, i);
    if j != i {
      MoreGroupsLast(s, j);
    }
  }

  /** No digit follows where `MoreGroups` stops. */
  lemma {:induction false} MoreGroupsNoDigit(s: string, i: nat)
    requires i <= |s|
    ensures var n := MoreGroups(s, i); n < |s| ==> !IsDigit(s[n])
    decreases |s| - i
  {
    var j := MoreGroupsRound(s, i);
    if j != i {
      MoreGroupsNoDigit(s, j);
    }
  }

  /** No further `\.*\d+` round follows where `MoreGroups` stops. */
  lemma {:induction false} MoreGroupsNoRound(s: string, i: nat)
    requires i <= |s|
    ensures NoRoundAt(s, MoreGroups(s, i))
    decreases |s| - i
  {
    var j := MoreGroupsRound(s, i);
    if j != i {
      MoreGroupsNoRound(s, j);
    }
  }

  /** No `\.*\d+` round starts at `n`: the dots there are not followed by a digit. */
  predicate NoRoundAt(s: string, n: nat)
    requires n <= |s|
  {
    DigitRun(s, n + DotRun(s, n)) == 0
  }

  /** `^\d+\.\d+` holds at the start of `s`. */
  predicate VersionStart(s: string)
  {
    var a := DigitRun(s, 0);
    0 < a && a + 1 < |s| && s[a] == '.' && IsDigit(s[a + 1])
  }

  /**
   * `^(?<!://)\d+\.\d+(\.*\d+)*`: at the start the look-behind always holds, so this is
   * a digit run, a '.', a digit run and then `(\.*\d+)*`; the match is the text before
   * the returned length.
   */
  function VersionEnd(s: string): (n: nat)
    requires VersionStart(s)
    ensures DigitRun(s, 0) + 1 < n <= |s|
    ensures forall k :: 0 <= k < n ==> IsDigit(s[k]) || s[k] == '.'
    ensures IsDigit(s[n - 1])
    ensures n < |s| ==> !IsDigit(s[n])
    ensures n + DotRun(s, n) < |s| ==> !IsDigit(s[n + DotRun(s, n)])
  {
    MoreGroupsRun(s, DigitRun(s, 0) + 1);
    MoreGroupsLast(s, DigitRun(s, 0) + 1);
    MoreGroupsNoDigit(s, DigitRun(s, 0) + 1);
    MoreGroupsNoRound(s, DigitRun(s, 0) + 1);
    MoreGroups(s, DigitRun(s, 0) + 1)
  }

  /** The text of the match, when there is one. */
  function VersionRun(s: string): (r: Option<string>)
    ensures r.None? <==> !VersionStart(s)
    ensures r.Some? ==> r.value == s[..VersionEnd(s)]
  {
    if VersionStart(s) then Some(s[..VersionEnd(s)]) else None
  }

  /**
   * The version the merged branch's name starts with, once the segments and the tag prefix
   * are off; the prefix is removed ungrouped, and then read grouped when the version parses.
   */
  function BranchVersion(branch: string, tagPrefix: Option<string>): (r: Option<S.SemanticVersion>)
    ensures var u := StripTagPrefix(StripSegments(branch), P.Ungrouped(tagPrefix));
      r.Some? ==> VersionRun(u).Some? && r == S.TryParse(VersionRun(u).value, P.Alternatives(tagPrefix))
    ensures var u := StripTagPrefix(StripSegments(branch), P.Ungrouped(tagPrefix));
      r.None? <==> !VersionStart(u) || S.TryParse(u[..VersionEnd(u)], P.Alternatives(tagPrefix)).None?
  {
    match VersionRun(StripTagPrefix(StripSegments(branch), P.Ungrouped(tagPrefix)))
    case None => None
    case Some(t) => S.TryParse(t, P.Alternatives(tagPrefix))
  }

  /**
   * `new HgMergeMessage(mergeMessage, config)`: a null message is read as "" and a null
   * configuration as a new `Config`, which sets no tag prefix.
   */
  function Parse(mergeMessage: Option<string>, config: Option<C.GlobalSettings>): (r: Result<MergeMessage>)
    ensures r.Err? <==> EndsWithInto(mergeMessage.GetOr(""))
    ensures r.Ok? ==> var b := ParseBranch(mergeMessage.GetOr(""));
      r.value.targetBranch == TargetBranch(mergeMessage.GetOr("")).value &&
      r.value.mergedBranch == b.branch && r.value.isMergedPullRequest == b.isMergedPullRequest &&
      r.value.pullRequestNumber == b.pullRequestNumber
    ensures r.Ok? ==> r.value.version == BranchVersion(r.value.mergedBranch, config.GetOr(C.NoGlobals).tagPrefix)
  {
    var m := mergeMessage.GetOr("");
    var tagPrefix := config.GetOr(C.NoGlobals).tagPrefix;
    match TargetBranch(m)
    case Err(e) => Err(e)
    case Ok(target) =>
      var b := ParseBranch(m);
      Ok(MergeMessage(target, b.branch, b.isMergedPullRequest, b.pullRequestNumber, BranchVersion(b.branch, tagPrefix)))
  }
}

/** The message forms the parser recognises, read back. */
module MergeMessageForms {
  import opened Wrappers
  import opened Text
  import opened MergeMessages

  /** A text whose lower-cased start is `h` starts with `h`, ignoring case. */
  lemma LeadIgnoringCase(lead: string, h: string, t: string)
    requires ToLower(lead) == ToLower(h)
    ensures StartsWithIgnoreCase(lead + t, h)
  {
    assert |lead| == |ToLower(lead)|;
    assert (lead + t)[..|lead|] == lead;
  }

  /** `[^']*` takes the whole quoted text up to its closing quote. */
  lemma QuotedRun(m: string, i: nat, x: string)
    requires i + |x| < |m| && m[i..i + |x|] == x && '\'' !in x && m[i + |x|] == '\''
    ensures RunWithout(m, i, '\'') == |x|
  {
    forall k | i <= k < i + |x|
      ensures m[k] != '\''
    {
      assert m[k] == m[i..i + |x|][k - i];
    }
    RunWithoutOf(m, i, '\'', |x|);
  }

  lemma MergeBranchLower()
    ensures ToLower("Merge branch '") == "merge branch '" && ToLower("Merge tag '") == "merge tag '"
    ensures ToLower("merge branch '") == "merge branch '" && ToLower("merge tag '") == "merge tag '"
  {
  }

  /** "Merge branch '" and "Merge tag '" are recognised as the start of the first form. */
  lemma {:induction false} MergeHeadOf(kind: string, t: string)
    requires kind == "branch" || kind == "tag"
    ensures MergeHead("Merge " + kind + " '" + t) == "merge " + kind + " '"
  {
    if kind == "branch" {
      assert "Merge " + kind + " '" == "Merge branch '" && "merge " + kind + " '" == "merge branch '";
      MergeBranchHead(t);
    } else {
      assert "Merge " + kind + " '" == "Merge tag '" && "merge " + kind + " '" == "merge tag '";
      MergeTagHead(t);
    }
  }

  lemma MergeBranchHead(t: string)
    ensures MergeHead("Merge branch '" + t) == "merge branch '"
  {
    MergeBranchLower();
    LeadIgnoringCase("Merge branch '", "merge branch '", t);
  }

  lemma MergeTagHead(t: string)
    ensures MergeHead("Merge tag '" + t) == "merge tag '"
  {
    MergeBranchLower();
    LeadIgnoringCase("Merge tag '", "merge tag '", t);
    MergeTagNotBranch("Merge tag '" + t);
  }

  /** "Merge tag '" has a 't' where "Merge branch '" has a 'b'. */
  lemma MergeTagNotBranch(m: string)
    requires StartsWithIgnoreCase(m, "merge tag '")
    ensures !StartsWithIgnoreCase(m, "merge branch '")
  {
    MergeBranchLower();
    assert ToLower(m[..11])[6] == 't';
    if |m| >= 14 {
      assert ToLower(m[..14])[6] == ToLower(m[..11])[6];
    }
  }

  /** With the start recognised, the form takes the text up to the next quote. */
  lemma QuotedFormOf(m: string, x: string)
    requires MergeHead(m) != "" && |MergeHead(m)| + |x| < |m|
    requires m[|MergeHead(m)|..|MergeHead(m)| + |x|] == x && '\'' !in x && m[|MergeHead(m)| + |x|] == '\''
    ensures MergeBranchForm(m) == Some(x)
  {
    QuotedRun(m, |MergeHead(m)|, x);
  }

  /** The quoted text of "Merge branch 'x'" or "Merge tag 'x'" is `x`. */
  lemma MergeBranchFormOf(kind: string, x: string, rest: string)
    requires kind == "branch" || kind == "tag"
    requires '\'' !in x
    ensures MergeBranchForm("Merge " + kind + " '" + x + "'" + rest) == Some(x)
  {
    var lead := "Merge " + kind + " '";
    var m := lead + (x + "'" + rest);
    assert m == "Merge " + kind + " '" + x + "'" + rest;
    MergeHeadOf(kind, x + "'" + rest);
    assert m[|lead|..|lead| + |x|] == x;
    QuotedFormOf(m, x);
  }

  /** "Merge branch 'x'" and "Merge tag 'x'" name `x`, whatever follows the closing quote. */
  lemma MergeBranchMessage(kind: string, x: string, rest: string)
    requires kind == "branch" || kind == "tag"
    requires '\'' !in x
    ensures ParseBranch("Merge " + kind + " '" + x + "'" + rest) == BranchMatch(x, false, None)
  {
    MergeBranchFormOf(kind, x, rest);
  }

  /** `.*` takes a line that ends where the text does or at a '\n'. */
  lemma LineRunOf(m: string, i: nat, x: string)
    requires i + |x| <= |m| && m[i..i + |x|] == x && '\n' !in x
    requires i + |x| == |m| || m[i + |x|] == '\n'
    ensures LineRun(m, i) == |x|
  {
    forall k | i <= k < i + |x|
      ensures m[k] != '\n'
    {
      assert m[k] == m[i..i + |x|][k - i];
    }
    RunWithoutOf(m, i, '\n', |x|);
  }

  /** A text whose first letter is not 'm' starts none of the merge forms. */
  lemma NotMergeHead(m: string)
    requires m != [] && ToLowerChar(m[0]) != 'm'
    ensures MergeHead(m) == "" && PullRequestForm(m).None?
  {
    if |m| >= 11 {
      assert ToLower(m[..11])[0] == ToLowerChar(m[0]);
    }
    if |m| >= 14 {
      assert ToLower(m[..14])[0] == ToLowerChar(m[0]);
    }
    if |m| >= 20 {
      assert ToLower(m[..20])[0] == ToLowerChar(m[0]);
    }
  }

  lemma FinishLower()
    ensures ToLower("Finish ") == "finish " && ToLower("finish ") == "finish "
  {
  }

  /** "Finish x" names `x`, the rest of its first line. */
  lemma FinishMessage(x: string, rest: string)
    requires '\n' !in x
    requires rest == [] || rest[0] == '\n'
    ensures ParseBranch("Finish " + x + rest) == BranchMatch(x, false, None)
  {
    var m := "Finish " + (x + rest);
    assert m == "Finish " + x + rest;
    NotMergeHead(m);
    FinishLower();
    LeadIgnoringCase("Finish ", "finish ", x + rest);
    assert m[7..7 + |x|] == x;
    LineRunOf(m, 7, x);
  }

  lemma PullRequestLower()
    ensures ToLower("Merge pull request #") == "merge pull request #"
    ensures ToLower("merge pull request #") == "merge pull request #"
    ensures ToLower(" from ") == " from " && ToLower(" in ") == " in "
  {
  }

  /** The pull-request form starts with a 'p' where the first form has a 'b' or a 't'. */
  lemma PullRequestNotMergeHead(m: string)
    requires StartsWithIgnoreCase(m, "merge pull request #")
    ensures MergeHead(m) == ""
  {
    PullRequestLower();
    assert ToLower(m[..20])[6] == 'p';
    assert ToLower(m[..11])[6] == ToLower(m[..20])[6];
    assert ToLower(m[..14])[6] == ToLower(m[..20])[6];
  }

  /** The pull-request form starts with an 'm' where the finish form has an 'f'. */
  lemma PullRequestNotFinish(m: string)
    requires StartsWithIgnoreCase(m, "merge pull request #")
    ensures FinishForm(m).None?
  {
    PullRequestLower();
    FinishLower();
    assert ToLower(m[..20])[0] == 'm';
    if |m| >= 7 {
      assert ToLower(m[..7])[0] == ToLower(m[..20])[0];
    }
  }

  /** The digit run after '#' is `d` when a space follows it. */
  lemma PullRequestDigits(m: string, d: string)
    requires 20 + |d| < |m| && m[20..20 + |d|] == d && AllDigits(d) && m[20 + |d|] == ' '
    ensures DigitRun(m, 20) == |d|
  {
    forall k | 20 <= k < 20 + |d|
      ensures IsDigit(m[k])
    {
      assert m[k] == m[20..20 + |d|][k - 20];
    }
    DigitRunOf(m, 20, |d|);
  }

  /** The separator after the digits: " from " is tried before " in ". */
  lemma SeparatorOf(t: string, word: string, src: string)
    requires word == "from" || word == "in"
    requires t == " " + word + " " + src
    ensures Separator(t) == |word| + 2
  {
    PullRequestLower();
    var sep := " " + word + " ";
    assert t == sep + src;
    LeadIgnoringCase(sep, sep, src);
    if word == "in" && |t| >= 6 {
      assert ToLower(t[..6])[1] == 'i';
    }
  }

  /** The form read from the facts the match depends on. */
  lemma {:induction false} PullRequestFormAt(m: string, d: string, sep: nat, src: string)
    requires StartsWithIgnoreCase(m, "merge pull request #") && 20 + |d| + sep + |src| <= |m|
    requires DigitRun(m, 20) == |d| && m[20..20 + |d|] == d
    requires sep > 0 && Separator(m[20 + |d|..]) == sep
    requires LineRun(m, 20 + |d| + sep) == |src| && m[20 + |d| + sep..20 + |d| + sep + |src|] == src
    ensures PullRequestForm(m) == Some(PullRequest(d, src))
  {
  }

  /** The form read from a recognised start, a digit run, a separator and a line. */
  lemma {:induction false} PullRequestFormParts(lead: string, d: string, sep: string, src: string)
    requires |lead| == 20 && StartsWithIgnoreCase(lead + (d + (sep + src)), "merge pull request #")
    requires d != [] && AllDigits(d) && '\n' !in src
    requires sep != [] && sep[0] == ' ' && Separator(sep + src) == |sep|
    ensures PullRequestForm(lead + (d + (sep + src))) == Some(PullRequest(d, src))
  {
    var m := lead + (d + (sep + src));
    var j := 20 + |d|;
    assert m[20..j] == d && m[j] == ' ';
    PullRequestDigits(m, d);
    assert m[j..] == sep + src;
    assert m[j + |sep|..j + |sep| + |src|] == src;
    LineRunOf(m, j + |sep|, src);
    PullRequestFormAt(m, d, |sep|, src);
  }

  /** The number and the source of "Merge pull request #d from s" (or "in s"). */
  lemma {:induction false} PullRequestFormOf(d: string, word: string, src: string)
    requires d != [] && AllDigits(d) && '\n' !in src
    requires word == "from" || word == "in"
    ensures PullRequestForm("Merge pull request #" + d + " " + word + " " + src) == Some(PullRequest(d, src))
  {
    var lead := "Merge pull request #";
    var sep := " " + word + " ";
    assert lead + d + " " + word + " " + src == lead + (d + (sep + src));
    PullRequestLower();
    LeadIgnoringCase(lead, "merge pull request #", d + (sep + src));
    SeparatorOf(sep + src, word, src);
    PullRequestFormParts(lead, d, sep, src);
  }

  /**
   * "Merge pull request #n from s" names `s`, flags a pull request and carries the
   * number when it fits in an `int`.
   */
  lemma PullRequestMessage(n: nat, word: string, src: string)
    requires '\n' !in src
    requires word == "from" || word == "in"
    ensures ParseBranch("Merge pull request #" + NatToString(n) + " " + word + " " + src) ==
      BranchMatch(src, true, if n <= Int32Max then Some(n) else None)
  {
    var m := "Merge pull request #" + NatToString(n) + " " + word + " " + src;
    PullRequestFormOf(NatToString(n), word, src);
    PullRequestNotMergeHead(m);
    PullRequestNotFinish(m);
    NatToStringRoundTrip(n);
  }

  /** An occurrence of "into" starts with an 'i' or an 'I'. */
  lemma IntoStartsWithI(m: string, j: int)
    ensures OccursAt(m, "into", j) ==> ToLowerChar(m[j]) == 'i'
  {
    if OccursAt(m, "into", j) {
      assert ToLower(m[j..j + 4])[0] == ToLower("into")[0];
    }
  }

  /** Text in front moves an occurrence without changing it. */
  lemma OccursShift(p: string, t: string, q: string, j: nat)
    ensures OccursAt(p + t, q, |p| + j) == OccursAt(t, q, j)
  {
    if j + |q| <= |t| {
      assert (p + t)[|p| + j..|p| + j + |q|] == t[j..j + |q|];
    }
  }

  /** Only the " into " written before `y` occurs after `x`, when `y` holds none. */
  lemma LastIntoAt(x: string, y: string)
    requires forall j :: !OccursAt(y, "into", j)
    ensures var m := x + " into " + y;
      OccursAt(m, "into", |x| + 1) && forall j :: |x| + 1 < j ==> !OccursAt(m, "into", j)
  {
    var m := x + " into " + y;
    assert m[|x| + 1..|x| + 5] == "into";
    forall j | |x| + 1 < j
      ensures !OccursAt(m, "into", j)
    {
      if j < |x| + 6 {
        IntoStartsWithI(m, j);
        assert m[j] == " into "[j - |x|];
      } else {
        assert m == (x + " into ") + y;
        OccursShift(x + " into ", y, "into", j - |x| - 6);
      }
    }
  }

  /** "x into y" names `y` as the target when `y` does not itself hold "into". */
  lemma TargetAfterLastInto(x: string, y: string)
    requires forall j :: !OccursAt(y, "into", j)
    ensures TargetBranch(x + " into " + y) == Ok(Some(y))
  {
    var m := x + " into " + y;
    LastIntoAt(x, y);
    assert LastIndexOfIgnoreCase(m, "into") == Some(|x| + 1);
    assert m[|x| + 6..] == y;
  }
}

/** The version read off a merged branch's name. */
module MergeMessageVersions {
  import opened Wrappers
  import opened Text
  import S = SemanticVersions
  import R = SemanticVersionRoundTrip
  import C = Configurations
  import P = TagPrefixes
  import opened MergeMessages
  import F = MergeMessageForms

  /** 1.2.3 written out ("j") parses back to 1.2.3 with no prefix. */
  lemma {:induction false} CoreTextParses(a: nat, b: nat, c: nat)
    ensures var p := S.TryParse(S.CoreText(S.New(a, b, c)), []); p.Some? && S.FullEqual(p.value, S.New(a, b, c))
  {
    var v := S.New(a, b, c);
    R.InformationalParses(v);
    R.InformationalGroupsDescribe(v);
    assert S.GroupsText(R.InformationalGroups(v)) == S.CoreText(v);
  }

  /** No accepted prefix text can start a text that starts with a digit, except the empty one. */
  predicate NoDigitPrefix(prefixes: seq<string>)
  {
    forall i :: 0 <= i < |prefixes| ==> prefixes[i] == [] || !IsDigit(prefixes[i][0])
  }

  /** Such prefixes leave a digit-led line as it is when the version is parsed. */
  lemma {:induction false} StripPrefixOfNumber(s: string, prefixes: seq<string>)
    requires s != [] && IsDigit(s[0]) && '\n' !in s && NoDigitPrefix(prefixes)
    ensures S.StripPrefix(s, prefixes) == Some(s)
    decreases |prefixes|
  {
    if prefixes != [] {
      if prefixes[0] == [] {
        assert s[|prefixes[0]|..] == s;
      } else {
        assert !(prefixes[0] <= s) by {
          assert prefixes[0][0] != s[0];
        }
        assert NoDigitPrefix(prefixes[1..]) by {
          forall i | 0 <= i < |prefixes| - 1
            ensures prefixes[1..][i] == [] || !IsDigit(prefixes[1..][i][0])
          {
            assert prefixes[1..][i] == prefixes[i + 1];
          }
        }
        StripPrefixOfNumber(s, prefixes[1..]);
      }
    }
  }

  /** No alternative that may match anywhere starts with a digit or a dot, except the empty one. */
  predicate NoVersionPrefix(prefixes: seq<string>)
  {
    forall i :: 0 <= i < |prefixes| ==> prefixes[i] == [] || (!IsDigit(prefixes[i][0]) && prefixes[i][0] != '.')
  }

  /** Such alternatives never match inside a text of digits and dots. */
  lemma VersionTextUnmatched(t: string, prefixes: seq<string>)
    requires DigitsAndDots(t) && NoVersionPrefix(prefixes)
    ensures forall k, i :: 0 <= k < |t| && 0 <= i < |prefixes| && prefixes[i] != [] ==> !(prefixes[i] <= t[k..])
  {
    forall k, i | 0 <= k < |t| && 0 <= i < |prefixes| && prefixes[i] != []
      ensures !(prefixes[i] <= t[k..])
    {
      assert t[k..][0] == t[k];
    }
  }

  /** The alternatives tried at the start of the text: the anchored ones, then the others. */
  function Tried(u: P.Anchoring): seq<string>
  {
    u.anchored + u.anywhere
  }

  /** Such alternatives leave a text of digits and dots as it is when the tag prefix is removed. */
  lemma StripTagPrefixOfNumber(s: string, u: P.Anchoring)
    requires s != [] && IsDigit(s[0]) && DigitsAndDots(s)
    requires NoDigitPrefix(Tried(u)) && NoVersionPrefix(u.anywhere)
    ensures StripTagPrefix(s, u) == s
  {
    var k := FirstPrefix(s, Tried(u));
    if k.Some? {
      assert Tried(u)[k.value] == [] by {
        assert Tried(u)[k.value] <= s;
      }
    }
    assert DigitsAndDots(s[1..]) by {
      forall j | 0 <= j < |s| - 1 ensures IsDigit(s[1..][j]) || s[1..][j] == '.' {
        assert s[1..][j] == s[j + 1];
      }
    }
    VersionTextUnmatched(s[1..], u.anywhere);
    RemoveAllUnchanged(s[1..], u.anywhere);
  }

  lemma {:induction false} WordRunOf(s: string, i: nat, n: nat)
    requires i + n <= |s|
    requires forall k :: i <= k < i + n ==> IsWordChar(s[k])
    requires i + n == |s| || !IsWordChar(s[i + n])
    ensures WordRun(s, i) == n
    decreases n
  {
    if n > 0 {
      WordRunOf(s, i + 1, n - 1);
    }
  }

  /** Text in front does not change a word run. */
  lemma {:induction false} WordRunShift(p: string, t: string, i: nat)
    requires i <= |t|
    ensures WordRun(p + t, |p| + i) == WordRun(t, i)
    decreases |t| - i
  {
    if i < |t| {
      assert (p + t)[|p| + i] == t[i];
      WordRunShift(p, t, i + 1);
    }
  }

  /** Text in front does not change whether a segment starts at a place. */
  lemma SegmentAtShift(p: string, t: string, i: nat)
    requires i <= |t|
    ensures SegmentAt(p + t, |p| + i) == SegmentAt(t, i)
  {
    WordRunShift(p, t, i);
    var n := WordRun(t, i);
    if i + n < |t| {
      assert (p + t)[|p| + i + n] == t[i + n];
    }
  }

  /** Text in front does not change where the segments end. */
  lemma {:induction false} SegmentsEndShift(p: string, t: string, i: nat)
    requires i <= |t|
    ensures SegmentsEnd(p + t, |p| + i) == |p| + SegmentsEnd(t, i)
    decreases |t| - i
  {
    SegmentAtShift(p, t, i);
    if SegmentAt(t, i) {
      WordRunShift(p, t, i);
      SegmentsEndShift(p, t, i + WordRun(t, i) + 1);
    }
  }

  /** The run measured by `WordRun` is all word characters. */
  lemma {:induction false} WordRunWords(s: string, i: nat)
    requires i <= |s|
    ensures AllWord(s, i, WordRun(s, i))
    decreases |s| - i
  {
    if i < |s| && IsWordChar(s[i]) {
      WordRunWords(s, i + 1);
    }
  }

  /** Word characters up to a character that is not one are the whole run. */
  lemma {:induction false} AllWordRun(s: string, i: nat, n: nat)
    requires i + n < |s| && AllWord(s, i, n) && !IsWordChar(s[i + n])
    ensures WordRun(s, i) == n
    decreases n
  {
    if n > 0 {
      AllWordRun(s, i + 1, n - 1);
    }
  }

  /** What `SegmentsEnd` passes over is segments. */
  lemma {:induction false} SegmentsEndChains(s: string, i: nat)
    requires i <= |s|
    ensures IsSegments(s, i, SegmentsEnd(s, i))
    decreases |s| - i
  {
    if SegmentAt(s, i) {
      var n := WordRun(s, i);
      SegmentsEndChains(s, i + n + 1);
      WordRunWords(s, i);
      assert SegmentHead(s, i, n);
    }
  }

  /** No longer stretch of segments starts at `i`: the match is maximal. */
  lemma {:induction false} SegmentsEndLongest(s: string, i: nat, k: nat)
    requires i <= k <= |s| && IsSegments(s, i, k)
    ensures k <= SegmentsEnd(s, i)
    decreases k - i
  {
    if k > i {
      var n :| 0 < n && i + n < k && SegmentHead(s, i, n) && IsSegments(s, i + n + 1, k);
      SegmentsEndStep(s, i, n);
      SegmentsEndLongest(s, i + n + 1, k);
    }
  }

  /** A segment of `n` word characters at `i` is passed over whole. */
  lemma SegmentsEndStep(s: string, i: nat, n: nat)
    requires 0 < n && i + n < |s| && SegmentHead(s, i, n)
    ensures SegmentsEnd(s, i) == SegmentsEnd(s, i + n + 1)
  {
    AllWordRun(s, i, n);
  }

  /**
   * `StripSegments` takes off exactly the longest prefix `(\w+[-/])*` matches: what it
   * takes off is segments, and no longer prefix is.
   */
  lemma StripSegmentsLongest(s: string)
    ensures var e := |s| - |StripSegments(s)|;
      IsSegments(s, 0, e) && forall k | 0 <= k <= |s| && IsSegments(s, 0, k) :: k <= e
  {
    SegmentsEndChains(s, 0);
    forall k | 0 <= k <= |s| && IsSegments(s, 0, k)
      ensures k <= SegmentsEnd(s, 0)
    {
      SegmentsEndLongest(s, 0, k);
    }
  }

  /** A word and a separator make a segment at the start. */
  lemma {:induction false} LeadingSegment(w: string, sep: char, t: string)
    requires w != [] && (forall k :: 0 <= k < |w| ==> IsWordChar(w[k]))
    requires sep == '-' || sep == '/'
    ensures SegmentAt(w + [sep] + t, 0) && WordRun(w + [sep] + t, 0) == |w|
  {
    var s := w + [sep] + t;
    assert forall k :: 0 <= k < |w| ==> s[k] == w[k];
    WordRunOf(s, 0, |w|);
  }

  /** A segment `w-` or `w/` in front of a name is taken off with the name's own segments. */
  lemma {:induction false} SegmentStripped(w: string, sep: char, t: string)
    requires w != [] && (forall k :: 0 <= k < |w| ==> IsWordChar(w[k]))
    requires sep == '-' || sep == '/'
    ensures StripSegments(w + [sep] + t) == StripSegments(t)
  {
    var s := w + [sep] + t;
    LeadingSegment(w, sep, t);
    SegmentsEndShift(w + [sep], t, 0);
    var e := SegmentsEnd(t, 0);
    assert SegmentsEnd(s, 0) == |w| + 1 + e;
    assert s[|w| + 1 + e..] == t[e..];
  }

  /** Text in front does not change a digit run. */
  lemma {:induction false} DigitRunShift(p: string, t: string, i: nat)
    requires i <= |t|
    ensures DigitRun(p + t, |p| + i) == DigitRun(t, i)
    decreases |t| - i
  {
    if i < |t| {
      assert (p + t)[|p| + i] == t[i];
      DigitRunShift(p, t, i + 1);
    }
  }

  /** A number followed by a '.' is one digit run and one word run. */
  lemma NumberBeforeDot(x: string, r: string)
    requires x != [] && AllDigits(x)
    ensures var s := x + "." + r;
      s[|x|] == '.' && DigitRun(s, 0) == |x| && WordRun(s, 0) == |x| && IsDigit(s[0])
  {
    var s := x + "." + r;
    forall k | 0 <= k < |x| ensures IsDigit(s[k]) && IsWordChar(s[k]) {
      assert s[k] == x[k];
    }
    assert s[|x|] == '.';
    DigitRunOf(s, 0, |x|);
    WordRunOf(s, 0, |x|);
  }

  /** A number is one digit run. */
  lemma NumberRun(x: string)
    requires AllDigits(x)
    ensures DigitRun(x, 0) == |x|
  {
    DigitRunOf(x, 0, |x|);
  }

  /** The digit runs of "x.y.z" for three numbers, which is digit-led and has no line break. */
  lemma {:induction false} DottedRuns(x: string, y: string, z: string)
    requires x != [] && y != [] && z != [] && AllDigits(x) && AllDigits(y) && AllDigits(z)
    ensures var t := x + "." + y + "." + z;
      t[|x|] == '.' && t[|x| + 1 + |y|] == '.' &&
      DigitRun(t, 0) == |x| && WordRun(t, 0) == |x| && IsDigit(t[0]) &&
      DigitRun(t, |x| + 1) == |y| && DigitRun(t, |x| + |y| + 2) == |z| && '\n' !in t
  {
    var r := y + "." + z;
    assert x + "." + y + "." + z == x + "." + r;
    NumberBeforeDot(x, r);
    DottedMiddle(x, y, z);
    DottedTail(x, y, z);
    DottedNoNewline(x, y, z);
  }

  /** The second number of "x.y.z" is one digit run, with a '.' after it. */
  lemma {:induction false} DottedMiddle(x: string, y: string, z: string)
    requires y != [] && AllDigits(y)
    ensures var t := x + "." + y + "." + z;
      t[|x| + 1 + |y|] == '.' && DigitRun(t, |x| + 1) == |y|
  {
    var t := x + "." + y + "." + z;
    var r := y + "." + z;
    assert t == (x + ".") + r;
    NumberBeforeDot(y, z);
    DigitRunShift(x + ".", r, 0);
    assert t[|x| + 1 + |y|] == r[|y|];
  }

  /** The third number of "x.y.z" is one digit run up to the end. */
  lemma {:induction false} DottedTail(x: string, y: string, z: string)
    requires AllDigits(z)
    ensures var t := x + "." + y + "." + z;
      DigitRun(t, |x| + |y| + 2) == |z|
  {
    var t := x + "." + y + "." + z;
    NumberRun(z);
    assert t == (x + "." + y + ".") + z;
    DigitRunShift(x + "." + y + ".", z, 0);
  }

  /** "x.y.z" for three numbers has no line break. */
  lemma DottedNoNewline(x: string, y: string, z: string)
    requires AllDigits(x) && AllDigits(y) && AllDigits(z)
    ensures '\n' !in x + "." + y + "." + z
  {
    DigitsHaveNoNewline(x);
    DigitsHaveNoNewline(y);
    DigitsHaveNoNewline(z);
  }

  /** A run of digits that is not empty starts with a digit. */
  lemma DigitAtRunStart(s: string, i: nat)
    requires i <= |s| && DigitRun(s, i) > 0
    ensures i < |s| && IsDigit(s[i])
  {
  }

  /** No run of dots starts at a character that is not a dot. */
  lemma DotRunNone(s: string, i: nat)
    requires i < |s| && s[i] != '.'
    ensures DotRun(s, i) == 0
  {
  }

  /** A digit run, a '.' and a digit start the version pattern; when `(\.*\d+)*` after the '.' takes the rest, so does the match. */
  lemma {:induction false} VersionStartAt(t: string, p: nat)
    requires p > 0 && p + 1 < |t| && DigitRun(t, 0) == p && t[p] == '.' && DigitRun(t, p + 1) > 0
    requires MoreGroups(t, p + 1) == |t|
    ensures VersionStart(t) && VersionEnd(t) == |t|
  {
    DigitAtRunStart(t, p + 1);
  }

  /** A round of `(\.*\d+)*` that takes a digit run with no dots before it. */
  lemma {:induction false} DigitGroup(t: string, i: nat, q: nat)
    requires i < |t| && q > 0 && DigitRun(t, i) == q
    ensures MoreGroups(t, i) == MoreGroups(t, i + q)
  {
    DigitAtRunStart(t, i);
    DotRunNone(t, i);
    MoreGroupsAt(t, i, 0, q, i + q);
  }

  /** A round of `d` dots and `q > 0` digits at `i` is taken whole, and the match goes on after it. */
  lemma MoreGroupsAt(t: string, i: nat, d: nat, q: nat, j: nat)
    requires i <= |t| && DotRun(t, i) == d && DigitRun(t, i + d) == q && q > 0 && j == i + d + q
    ensures j <= |t| && MoreGroups(t, i) == MoreGroups(t, j)
  {
  }

  /** A '.' and digits up to the end: the last round of `(\.*\d+)*` takes all of it. */
  lemma {:induction false} LastGroup(t: string, j: nat, k: nat)
    requires k == j + 1 && k < |t| && t[j] == '.' && DigitRun(t, k) == |t| - k
    ensures MoreGroups(t, j) == |t|
  {
    DigitAtRunStart(t, k);
    DotRunNone(t, k);
    assert DotRun(t, j) == 1;
    var j' := MoreGroupsRound(t, j);
    assert j' != j && j' == |t|;
    assert MoreGroups(t, |t|) == |t|;
  }

  /** Digits, a '.' and digits up to the end: `(\.*\d+)*` takes all of it in two rounds. */
  lemma {:induction false} TwoGroups(t: string, i: nat, q: nat, k: nat)
    requires i < |t| && q > 0 && DigitRun(t, i) == q
    requires k == i + q + 1 && k < |t| && t[i + q] == '.' && DigitRun(t, k) == |t| - k
    ensures MoreGroups(t, i) == |t|
  {
    DigitGroup(t, i, q);
    LastGroup(t, i + q, k);
  }

  /** Three digit runs joined by single dots, and nothing after them, are one whole match. */
  lemma {:induction false} VersionEndAt(t: string, p: nat, q: nat)
    requires p > 0 && q > 0 && p + q + 2 < |t|
    requires DigitRun(t, 0) == p && t[p] == '.' && DigitRun(t, p + 1) == q
    requires t[p + 1 + q] == '.' && DigitRun(t, p + q + 2) == |t| - (p + q + 2)
    ensures VersionStart(t) && VersionEnd(t) == |t|
  {
    TwoGroups(t, p + 1, q, p + q + 2);
    VersionStartAt(t, p);
  }

  /** The version pattern takes the whole of "x.y.z". */
  lemma DottedEnd(x: string, y: string, z: string)
    requires x != [] && y != [] && z != [] && AllDigits(x) && AllDigits(y) && AllDigits(z)
    ensures var t := x + "." + y + "." + z;
      VersionStart(t) && VersionEnd(t) == |t|
  {
    DottedRuns(x, y, z);
    VersionEndAt(x + "." + y + "." + z, |x|, |y|);
  }

  /** "x.y.z" is a whole match of the version pattern, and has no segment to take off. */
  lemma DottedMatches(x: string, y: string, z: string)
    requires x != [] && y != [] && z != [] && AllDigits(x) && AllDigits(y) && AllDigits(z)
    ensures var t := x + "." + y + "." + z;
      StripSegments(t) == t && VersionRun(t) == Some(t) && IsDigit(t[0]) && '\n' !in t
  {
    var t := x + "." + y + "." + z;
    DottedRuns(x, y, z);
    DottedEnd(x, y, z);
    assert !SegmentAt(t, 0);
    assert t[..|t|] == t;
  }

  /** "a.b.c" is a whole match of the version pattern, and has no segment to take off. */
  lemma CoreTextMatches(a: nat, b: nat, c: nat)
    ensures var t := S.CoreText(S.New(a, b, c));
      StripSegments(t) == t && VersionRun(t) == Some(t) && IsDigit(t[0]) && '\n' !in t
  {
    DottedMatches(NatToString(a), NatToString(b), NatToString(c));
  }

  /** A prefix text at the front of `t`: none, or the first one tried. */
  lemma StripFirstPrefix(pre: string, t: string, u: P.Anchoring)
    requires t != [] && IsDigit(t[0]) && DigitsAndDots(t)
    requires NoDigitPrefix(Tried(u)) && NoVersionPrefix(u.anywhere)
    requires pre == [] || (|Tried(u)| > 0 && Tried(u)[0] == pre)
    ensures StripTagPrefix(pre + t, u) == t
  {
    if pre == [] {
      assert pre + t == t;
      StripTagPrefixOfNumber(t, u);
    } else {
      assert pre <= pre + t;
      assert (pre + t)[|pre|..] == t;
      VersionTextUnmatched(t, u.anywhere);
      RemoveAllUnchanged(t, u.anywhere);
    }
  }

  /** Word characters in front of "a.b.c" make one word run, with no segment to take off. */
  lemma PrefixedNoSegment(pre: string, a: nat, b: nat, c: nat)
    requires forall k :: 0 <= k < |pre| ==> IsWordChar(pre[k])
    ensures StripSegments(pre + S.CoreText(S.New(a, b, c))) == pre + S.CoreText(S.New(a, b, c))
  {
    var x := NatToString(a);
    var r := NatToString(b) + "." + NatToString(c);
    var s := pre + x + "." + r;
    assert pre + S.CoreText(S.New(a, b, c)) == s;
    forall k | 0 <= k < |pre| + |x|
      ensures IsWordChar(s[k])
    {
      if k < |pre| {
        assert s[k] == pre[k];
      } else {
        assert s[k] == x[k - |pre|];
      }
    }
    assert s[|pre| + |x|] == '.';
    WordRunOf(s, 0, |pre| + |x|);
    assert !SegmentAt(s, 0);
  }

  /** The text left of such a branch name once the segments and the prefix are off. */
  lemma BranchTextAt(w: string, sep: char, pre: string, t: string, u: P.Anchoring)
    requires w != [] && forall k :: 0 <= k < |w| ==> IsWordChar(w[k])
    requires sep == '-' || sep == '/'
    requires NoDigitPrefix(Tried(u)) && NoVersionPrefix(u.anywhere)
    requires pre == [] || (|Tried(u)| > 0 && Tried(u)[0] == pre)
    requires t != [] && IsDigit(t[0]) && DigitsAndDots(t) && StripSegments(pre + t) == pre + t
    ensures StripTagPrefix(StripSegments(w + [sep] + (pre + t)), u) == t
  {
    SegmentStripped(w, sep, pre + t);
    StripFirstPrefix(pre, t, u);
  }

  /** What the version of a branch is once its version text is known. */
  lemma BranchVersionAt(branch: string, t: string, tagPrefix: Option<string>)
    requires StripTagPrefix(StripSegments(branch), P.Ungrouped(tagPrefix)) == t && VersionRun(t) == Some(t)
    requires S.StripPrefix(t, P.Alternatives(tagPrefix)) == S.StripPrefix(t, [])
    ensures BranchVersion(branch, tagPrefix) == S.TryParse(t, [])
  {
  }

  /** "a.b.c" is made of digits and dots. */
  lemma CoreTextDigitsAndDots(a: nat, b: nat, c: nat)
    ensures DigitsAndDots(S.CoreText(S.New(a, b, c)))
  {
    var x, y, z := NatToString(a), NatToString(b), NatToString(c);
    var t := x + "." + y + "." + z;
    assert S.CoreText(S.New(a, b, c)) == t;
    forall k | 0 <= k < |t| ensures IsDigit(t[k]) || t[k] == '.' {
      if k < |x| {
        assert t[k] == x[k];
      } else if k == |x| || k == |x| + 1 + |y| {
      } else if k < |x| + 1 + |y| {
        assert t[k] == y[k - |x| - 1];
      } else {
        assert t[k] == z[k - |x| - |y| - 2];
      }
    }
  }

  /**
   * A branch named `w-` or `w/`, then optionally the first accepted prefix text, then
   * "a.b.c" carries the version a.b.c, when no alternative of the tag prefix starts
   * with a digit and none of those `^` does not anchor starts with a dot.
   */
  lemma BranchVersionOf(w: string, sep: char, pre: string, a: nat, b: nat, c: nat, tagPrefix: Option<string>)
    requires w != [] && forall k :: 0 <= k < |w| ==> IsWordChar(w[k])
    requires sep == '-' || sep == '/'
    requires NoDigitPrefix(P.Alternatives(tagPrefix)) && NoVersionPrefix(P.Ungrouped(tagPrefix).anywhere)
    requires pre == [] || (|P.Alternatives(tagPrefix)| > 0 && P.Alternatives(tagPrefix)[0] == pre)
    requires forall k :: 0 <= k < |pre| ==> IsWordChar(pre[k])
    ensures var r := BranchVersion(w + [sep] + (pre + S.CoreText(S.New(a, b, c))), tagPrefix);
      r.Some? && S.FullEqual(r.value, S.New(a, b, c))
  {
    var t := S.CoreText(S.New(a, b, c));
    var branch := w + [sep] + (pre + t);
    var alts := P.Alternatives(tagPrefix);
    assert Tried(P.Ungrouped(tagPrefix)) == alts;
    CoreTextMatches(a, b, c);
    CoreTextDigitsAndDots(a, b, c);
    PrefixedNoSegment(pre, a, b, c);
    BranchTextAt(w, sep, pre, t, P.Ungrouped(tagPrefix));
    StripPrefixOfNumber(t, alts);
    StripPrefixOfNumber(t, []);
    BranchVersionAt(branch, t, tagPrefix);
    CoreTextParses(a, b, c);
  }

  /**
   * Past the start, an alternative `^` does not anchor is taken out wherever it occurs:
   * of `d` + `q` + `t`, with `q` the first such alternative, only `q` goes.
   */
  lemma UnanchoredRemoved(d: char, q: string, t: string, u: P.Anchoring)
    requires IsDigit(d) && DigitsAndDots(t)
    requires NoDigitPrefix(Tried(u)) && NoVersionPrefix(u.anywhere)
    requires |u.anywhere| > 0 && u.anywhere[0] == q && q != []
    ensures StripTagPrefix([d] + q + t, u) == [d] + t
  {
    var s := [d] + q + t;
    var k := FirstPrefix(s, Tried(u));
    if k.Some? {
      assert Tried(u)[k.value] == [] by {
        assert Tried(u)[k.value] <= s;
        assert s[0] == d;
      }
    }
    assert s[1..] == q + t;
    assert q <= q + t;
    assert FirstPrefix(q + t, u.anywhere) == Some(0);
    assert (q + t)[|q|..] == t;
    VersionTextUnmatched(t, u.anywhere);
    RemoveAllUnchanged(t, u.anywhere);
  }

  /** The text "1.2.3". */
  lemma OneTwoThree()
    ensures S.CoreText(S.New(1, 2, 3)) == "1.2.3"
  {
  }

  /** "1b.2.3" is one word run followed by a dot: no segment to take off. */
  lemma OneBNoSegment(s: string)
    requires s == "1b.2.3"
    ensures StripSegments(s) == s
  {
    WordRunOf(s, 0, 2);
    assert !SegmentAt(s, 0);
  }

  /** With the tag prefix "a|b", "1b.2.3" loses its "b", although it is not at the start. */
  lemma AlternationInsideText(s: string, tagPrefix: Option<string>)
    requires s == "1b.2.3" && tagPrefix == Some("a|b")
    ensures StripTagPrefix(s, P.Ungrouped(tagPrefix)) == "1.2.3"
  {
    P.UngroupedAlternation();
    AnywhereRemoved(s, P.Ungrouped(tagPrefix));
  }

  lemma AnywhereRemoved(s: string, u: P.Anchoring)
    requires s == "1b.2.3" && u == P.Anchoring(["a"], ["b"])
    ensures StripTagPrefix(s, u) == "1.2.3"
  {
    assert NoDigitPrefix(Tried(u)) && NoVersionPrefix(u.anywhere);
    var t := ".2.3";
    assert DigitsAndDots(t);
    UnanchoredRemoved('1', "b", t, u);
    assert ['1'] + "b" + t == s;
  }

  /** A branch `w-s` or `w/s` whose `s` is left as "a.b.c" once the tag prefix is off. */
  lemma VersionAfterStrip(w: string, sep: char, s: string, a: nat, b: nat, c: nat, tagPrefix: Option<string>)
    requires w != [] && forall k :: 0 <= k < |w| ==> IsWordChar(w[k])
    requires sep == '-' || sep == '/'
    requires StripSegments(s) == s && StripTagPrefix(s, P.Ungrouped(tagPrefix)) == S.CoreText(S.New(a, b, c))
    requires NoDigitPrefix(P.Alternatives(tagPrefix))
    ensures var r := BranchVersion(w + [sep] + s, tagPrefix); r.Some? && S.FullEqual(r.value, S.New(a, b, c))
  {
    var t := S.CoreText(S.New(a, b, c));
    SegmentStripped(w, sep, s);
    CoreTextMatches(a, b, c);
    StripPrefixOfNumber(t, P.Alternatives(tagPrefix));
    StripPrefixOfNumber(t, []);
    BranchVersionAt(w + [sep] + s, t, tagPrefix);
    CoreTextParses(a, b, c);
  }

  lemma AlternationNoDigit(tagPrefix: Option<string>)
    requires tagPrefix == Some("a|b")
    ensures NoDigitPrefix(P.Alternatives(tagPrefix))
  {
    P.UngroupedAlternation();
    assert P.Alternatives(tagPrefix) == ["a"] + ["b"];
  }

  /** "release/1b.2.3" is the word "release", a '/' and "1b.2.3". */
  lemma ReleaseOneB(branch: string) returns (w: string, s: string)
    requires branch == "release/1b.2.3"
    ensures w != [] && (forall k :: 0 <= k < |w| ==> IsWordChar(w[k])) && branch == w + ['/'] + s && s == "1b.2.3"
  {
    w, s := "release", "1b.2.3";
  }

  /** So with the tag prefix "a|b", the branch "release/1b.2.3" carries the version 1.2.3. */
  lemma AlternationInsideVersion(branch: string, tagPrefix: Option<string>)
    requires branch == "release/1b.2.3" && tagPrefix == Some("a|b")
    ensures var r := BranchVersion(branch, tagPrefix); r.Some? && S.FullEqual(r.value, S.New(1, 2, 3))
  {
    var w, s := ReleaseOneB(branch);
    OneBNoSegment(s);
    AlternationInsideText(s, tagPrefix);
    OneTwoThree();
    AlternationNoDigit(tagPrefix);
    VersionAfterStrip(w, '/', s, 1, 2, 3, tagPrefix);
  }

  /** A null message gives an empty merged branch, no target, no pull request and no version. */
  lemma NullMessage(config: Option<C.GlobalSettings>)
    ensures Parse(None, config) == Ok(MergeMessage(None, "", false, None, None))
  {
    EmptyMessageParts("");
    EmptyBranchVersion(config.GetOr(C.NoGlobals).tagPrefix);
  }

  /** The empty message names no target and matches none of the merge forms. */
  lemma EmptyMessageParts(m: string)
    requires m == ""
    ensures TargetBranch(m) == Ok(None) && ParseBranch(m) == BranchMatch("", false, None)
  {
    assert !OccursAt(m, "into", -4);
  }

  /** An empty branch name carries no version, whatever the tag prefix. */
  lemma EmptyBranchVersion(tagPrefix: Option<string>)
    ensures BranchVersion("", tagPrefix) == None
  {
    EmptyStripped(P.Ungrouped(tagPrefix));
  }

  lemma EmptyStripped(u: P.Anchoring)
    ensures VersionRun(StripTagPrefix(StripSegments(""), u)) == None
  {
    assert StripSegments("") == "";
    assert StripTagPrefix("", u) == "";
    assert !VersionStart("");
  }

  /** A release branch name has no quote in it. */
  lemma ReleaseNameUnquoted(w: string, sep: char, a: nat, b: nat, c: nat)
    requires forall k :: 0 <= k < |w| ==> IsWordChar(w[k])
    requires sep == '-' || sep == '/'
    ensures '\'' !in w + [sep] + ([] + S.CoreText(S.New(a, b, c)))
  {
    var x, y, z := NatToString(a), NatToString(b), NatToString(c);
    DigitsHaveNoQuote(x);
    DigitsHaveNoQuote(y);
    DigitsHaveNoQuote(z);
    assert '\'' !in S.CoreText(S.New(a, b, c));
    forall k | 0 <= k < |w| ensures w[k] != '\'' {
      assert IsWordChar(w[k]);
    }
  }

  lemma DigitsHaveNoQuote(s: string)
    requires AllDigits(s)
    ensures '\'' !in s
  {
    forall i | 0 <= i < |s| ensures s[i] != '\'' {
      assert IsDigit(s[i]);
    }
  }

  /** "Merge branch 'x' into y" names `y` as the target and `x` as the merged branch. */
  lemma MergeIntoForm(x: string, y: string)
    requires '\'' !in x
    requires forall j :: !OccursAt(y, "into", j)
    ensures Parse(Some("Merge branch '" + x + "' into " + y), None) ==
      Ok(MergeMessage(Some(y), x, false, None, BranchVersion(x, None)))
  {
    var m := "Merge branch '" + x + "' into " + y;
    MessageShape(x, y);
    F.MergeBranchMessage("branch", x, " into " + y);
    F.TargetAfterLastInto("Merge branch '" + x + "'", y);
    ParseAt(m, x, y);
  }

  /** With no configuration, the parts found in a message make up its parse. */
  lemma ParseAt(m: string, x: string, y: string)
    requires TargetBranch(m) == Ok(Some(y)) && ParseBranch(m) == BranchMatch(x, false, None)
    ensures Parse(Some(m), None) == Ok(MergeMessage(Some(y), x, false, None, BranchVersion(x, None)))
  {
    assert C.NoGlobals.tagPrefix == None;
  }

  lemma MessageShape(x: string, y: string)
    ensures "Merge branch '" + x + "' into " + y == "Merge " + "branch" + " '" + x + "'" + (" into " + y)
    ensures "Merge branch '" + x + "' into " + y == ("Merge branch '" + x + "'") + " into " + y
  {
  }

  /**
   * "Merge branch 'w-a.b.c' into y", with no configuration: the target is `y`, the
   * merged branch is the quoted name and its version is a.b.c.
   */
  lemma MergedReleaseBranch(w: string, sep: char, a: nat, b: nat, c: nat, y: string)
    requires w != [] && forall k :: 0 <= k < |w| ==> IsWordChar(w[k])
    requires sep == '-' || sep == '/'
    requires forall j :: !OccursAt(y, "into", j)
    ensures var x := w + [sep] + ([] + S.CoreText(S.New(a, b, c)));
      var r := Parse(Some("Merge branch '" + x + "' into " + y), None);
      r.Ok? && r.value.targetBranch == Some(y) && r.value.mergedBranch == x &&
      !r.value.isMergedPullRequest && r.value.pullRequestNumber.None? &&
      r.value.version.Some? && S.FullEqual(r.value.version.value, S.New(a, b, c))
  {
    var x := w + [sep] + ([] + S.CoreText(S.New(a, b, c)));
    ReleaseNameUnquoted(w, sep, a, b, c);
    MergeIntoForm(x, y);
    BranchVersionOf(w, sep, [], a, b, c, None);
  }
}
