/**
 * The build metadata of a semantic version: a commit count, branch, sha, commit
 * date and free text. Parsing hand-codes the case-insensitive pattern
 * `(?<BuildNumber>\d+)?(\.?Branch(Name)?\.(?<BranchName>[^\.]+))?(\.?Sha?\.(?<Sha>[^\.]+))?(?<Other>.*)`.
 */
module BuildMetadatas {
  import opened Wrappers
  import opened Text
  import opened Hashes

  /**
   * `CommitDate` is a `DateTimeOffset`, modelled as a tick count; `MinDate` stands
   * for `DateTimeOffset.MinValue`, which is also its default value.
   */
  datatype BuildMetadata = BuildMetadata(
    commitsSinceTag: Option<nat>,
    branch: Option<string>,
    sha: Option<string>,
    otherMetaData: Option<string>,
    commitDate: nat,
    commitsSinceVersionSource: nat)
  {
    /** `Equals(BuildMetadata other)`: count, Branch and Sha (ordinal); false for null. */
    predicate Equals(other: Option<BuildMetadata>)
    {
      other.Some? && commitsSinceTag == other.value.commitsSinceTag &&
      branch == other.value.branch && sha == other.value.sha
    }
  }

  const MinDate: nat := 0

  /** `new BuildMetadata()`. */
  function Default(): BuildMetadata
  {
    BuildMetadata(None, None, None, None, MinDate, 0)
  }

  /** `new BuildMetadata(commitsSinceTag, branch, commitSha, commitDate, otherMetadata)`. */
  function Create(commitsSinceTag: Option<nat>, branch: Option<string>, commitSha: Option<string>,
                  commitDate: nat, otherMetadata: Option<string>): BuildMetadata
  {
    BuildMetadata(commitsSinceTag, branch, commitSha, otherMetadata, commitDate, commitsSinceTag.GetOr(0))
  }

  /** `new BuildMetadata(buildMetadata)`: copies every field except `CommitsSinceVersionSource`. */
  function Copy(m: BuildMetadata): BuildMetadata
  {
    BuildMetadata(m.commitsSinceTag, m.branch, m.sha, m.otherMetaData, m.commitDate, 0)
  }

  lemma CreateSetsCommitsSinceVersionSource(count: Option<nat>, branch: Option<string>, sha: Option<string>,
                                            date: nat, other: Option<string>)
    ensures var m := Create(count, branch, sha, date, other);
      m.commitsSinceVersionSource == (if count.Some? then count.value else 0) &&
      m.commitsSinceTag == count && m.branch == branch && m.sha == sha &&
      m.commitDate == date && m.otherMetaData == other
  {
  }

  /** A copy is `Equals` to the original but has a zero `CommitsSinceVersionSource`. */
  lemma CopyResetsCommitsSinceVersionSource(m: BuildMetadata)
    ensures Copy(m).Equals(Some(m)) && Copy(m).commitsSinceVersionSource == 0
    ensures Copy(m).commitDate == m.commitDate && Copy(m).otherMetaData == m.otherMetaData
  {
  }

  /** `static bool operator ==`: `object.Equals(left, right)`. */
  predicate OperatorEquals(left: Option<BuildMetadata>, right: Option<BuildMetadata>)
  {
    if left.None? then right.None? else left.value.Equals(right)
  }

  /** Equality ignores the commit date, the other metadata and `CommitsSinceVersionSource`. */
  lemma EqualsIgnoresDateAndOther(m: BuildMetadata, date: nat, other: Option<string>, csvs: nat)
    ensures m.Equals(Some(m.(commitDate := date, otherMetaData := other, commitsSinceVersionSource := csvs)))
  {
  }

  // ---------------------------------------------------------------------------
  // Hash codes

  /** `GetHashCode()`: the count, then Branch, then Sha. */
  function HashCode(m: BuildMetadata): bv32
  {
    Mix(Mix(NullableIntHash(m.commitsSinceTag), OptionStringHash(m.branch)), OptionStringHash(m.sha))
  }

  lemma EqualsImpliesEqualHashCode(a: BuildMetadata, b: BuildMetadata)
    requires a.Equals(Some(b))
    ensures HashCode(a) == HashCode(b)
  {
  }

  // ---------------------------------------------------------------------------
  // Formatting

  predicate NullOrEmpty(s: Option<string>)
  {
    s.None? || s.value == []
  }

  /** `$"{CommitsSinceTag}"`: the count, or "" when absent. */
  function CountText(m: BuildMetadata): string
  {
    if m.commitsSinceTag.None? then "" else NatToString(m.commitsSinceTag.value)
  }

  /** An interpolated optional part: `prefix + value`, or nothing when the value is null or empty. */
  function Part(prefix: string, s: Option<string>): string
  {
    if NullOrEmpty(s) then "" else prefix + s.value
  }

  /** The "f" text before trimming: count, `.Branch.x`, `.Sha.y`, `.other`. */
  function FullText(m: BuildMetadata): string
  {
    CountText(m) + Part(".Branch.", m.branch) + Part(".Sha.", m.sha) + Part(".", m.otherMetaData)
  }

  /** The format a formatter switches on: null or empty means "b", and case is ignored. */
  function FormatKey(format: Option<string>): string
  {
    ToLower(if NullOrEmpty(format) then "b" else format.value)
  }

  lemma FormatKeyOfLiteral()
    ensures FormatKey(None) == "b" && FormatKey(Some("b")) == "b"
    ensures FormatKey(Some("s")) == "s" && FormatKey(Some("f")) == "f" && FormatKey(Some("p")) == "p"
  {
    LowerCaseUnchanged("b");
    LowerCaseUnchanged("s");
    LowerCaseUnchanged("f");
    LowerCaseUnchanged("p");
  }

  /**
   * The private `ToString(string format)`: "b" (also null or empty) gives the count
   * or null, "s" the count and sha, "f" the full text; formats are lower-cased first.
   */
  function PrivateToString(m: BuildMetadata, format: Option<string>): (r: Result<Option<string>>)
    ensures r.Err? <==> var f := FormatKey(format); f != "b" && f != "s" && f != "f"
    ensures r.Err? ==> r.error == ArgumentException("Unrecognised format")
    ensures r.Ok? && r.value.None? <==> FormatKey(format) == "b" && m.commitsSinceTag.None?
  {
    var f := FormatKey(format);
    if f == "b" then Ok(if m.commitsSinceTag.None? then None else Some(NatToString(m.commitsSinceTag.value)))
    else if f == "s" then Ok(Some(CountText(m) + Part(".Sha.", m.sha)))
    else if f == "f" then Ok(Some(FullText(m)))
    else Err(ArgumentException("Unrecognised format"))
  }

  /** `ToString()`: resolves to the private overload with a null format, so the count or null. */
  function ToStringDefault(m: BuildMetadata): (r: Option<string>)
    ensures r.None? <==> m.commitsSinceTag.None?
    ensures r.Some? ==> r.value != [] && AllDigits(r.value) && DigitsValue(r.value) == m.commitsSinceTag.value
  {
    FormatKeyOfLiteral();
    var r := PrivateToString(m, None);
    assert m.commitsSinceTag.Some? ==> DigitsValue(NatToString(m.commitsSinceTag.value)) == m.commitsSinceTag.value by {
      if m.commitsSinceTag.Some? { NatToStringRoundTrip(m.commitsSinceTag.value); }
    }
    r.value
  }

  /** The padding of a "p" or "pN" format: N when it parses as an integer, else 4. */
  function Padding(format: string): int
    requires |format| >= 1
  {
    if |format| > 1 then TryParseInt(format[1..]).GetOr(4) else 4
  }

  /**
   * `CommitsSinceTag?.ToString("D" + padding) ?? string.Empty`. A negative padding makes
   * "D-N", which is no standard format: .NET reads it as a custom format whose '0' digits
   * are placeholders for the count and whose other characters are copied.
   */
  function PaddedCount(m: BuildMetadata, padding: int): Result<string>
  {
    if m.commitsSinceTag.None? then Ok("")
    else if padding < 0 then Ok(CustomFormat(m.commitsSinceTag.value, "D-" + NatToString(-padding)))
    else Ok(PadDigits(m.commitsSinceTag.value, padding))
  }

  /**
   * The public `ToString(format, null)` as written: null or empty means "b"; the
   * format is lower-cased; "p..." pads the count; any other format goes through the
   * private overload and `.TrimStart('.')`, which throws on the null "b" result.
   */
  function PublicToStringAsWritten(m: BuildMetadata, format: Option<string>): (r: Result<string>)
  {
    var f := FormatKey(format);
    if "p" <= f then PaddedCount(m, Padding(f))
    else
      match PrivateToString(m, Some(f))
      case Err(e) => Err(e)
      case Ok(None) => Err(NullReferenceException)
      case Ok(Some(s)) => Ok(TrimStart(s, '.'))
  }

  /** The public formatter with the null "b" result passed through instead of dereferenced. */
  function PublicToString(m: BuildMetadata, format: Option<string>): (r: Result<Option<string>>)
    ensures r.Ok? && r.value.None? ==> m.commitsSinceTag.None?
  {
    var f := FormatKey(format);
    if "p" <= f then
      match PaddedCount(m, Padding(f))
      case Err(e) => Err(e)
      case Ok(s) => Ok(Some(s))
    else
      match PrivateToString(m, Some(f))
      case Err(e) => Err(e)
      case Ok(None) => Ok(None)
      case Ok(Some(s)) => Ok(Some(TrimStart(s, '.')))
  }

  /** The two differ only where the written code dereferences null: "b" without a count. */
  lemma PublicToStringAgreement(m: BuildMetadata, format: Option<string>)
    ensures var w, c := PublicToStringAsWritten(m, format), PublicToString(m, format);
      (w.Ok? ==> c == Ok(Some(w.value))) &&
      (w.Err? && w.error != NullReferenceException ==> c == Err(w.error)) &&
      (w == Err(NullReferenceException) <==> c == Ok(None))
  {
  }

  /** The written public formatter throws for "b" (and the default format) when there is no count. */
  lemma PublicToStringAsWrittenThrows(m: BuildMetadata)
    requires m.commitsSinceTag.None?
    ensures PublicToStringAsWritten(m, None) == Err(NullReferenceException)
    ensures PublicToStringAsWritten(m, Some("b")) == Err(NullReferenceException)
    ensures PublicToString(m, Some("b")) == Ok(None)
  {
    FormatKeyOfLiteral();
    assert "b"[0] != "p"[0];
  }

  /** "f" is the full text with its leading dots trimmed. */
  lemma FullFormat(m: BuildMetadata)
    ensures PublicToString(m, Some("f")) == Ok(Some(TrimStart(FullText(m), '.')))
  {
    FormatKeyOfLiteral();
    assert !("p" <= "f") by { assert "f"[0] != "p"[0]; }
    assert PrivateToString(m, Some("f")) == Ok(Some(FullText(m)));
  }

  /** "pN": the count zero-padded to at least N digits, or to four when N does not fit in an `int`. */
  lemma PaddedFormat(m: BuildMetadata, n: nat)
    requires m.commitsSinceTag.Some?
    ensures var r := PublicToString(m, Some("p" + NatToString(n)));
      r.Ok? && r.value.Some? && AllDigits(r.value.value) && DigitsValue(r.value.value) == m.commitsSinceTag.value &&
      |r.value.value| >= (if n <= Int32Max then n else 4)
  {
    PositiveFormatKey(n);
    PositivePaddingValue(n);
  }

  /** "pN" is its own format key: it has no upper-case letter. */
  lemma PositiveFormatKey(n: nat)
    ensures FormatKey(Some("p" + NatToString(n))) == "p" + NatToString(n) && "p" <= "p" + NatToString(n)
  {
    var f := "p" + NatToString(n);
    forall i | 0 <= i < |f| ensures !('A' <= f[i] <= 'Z') {
      if i > 0 { assert f[i] == NatToString(n)[i - 1]; }
    }
    LowerCaseUnchanged(f);
  }

  /** The padding read from "pN" is N, or four when N does not fit in an `int`. */
  lemma PositivePaddingValue(n: nat)
    ensures Padding("p" + NatToString(n)) == if n <= Int32Max then n else 4
  {
    var d := NatToString(n);
    assert ("p" + d)[1..] == d;
    NatToStringRoundTrip(n);
  }

  /** "p-N" is its own format key: it has no upper-case letter. */
  lemma NegativeFormatKey(n: nat)
    ensures FormatKey(Some("p-" + NatToString(n))) == "p-" + NatToString(n)
  {
    var d := NatToString(n);
    var f := "p-" + d;
    forall i | 0 <= i < |f| ensures !('A' <= f[i] <= 'Z') {
      if i > 1 { assert f[i] == d[i - 2]; }
    }
    LowerCaseUnchanged(f);
  }

  /** `int.TryParse("-N")` gives -N when that fits in an `int`, and fails otherwise. */
  lemma ParseNegative(n: nat)
    ensures TryParseInt("-" + NatToString(n)) == if -(n as int) >= Int32Min then Some(-(n as int)) else None
  {
    var d := NatToString(n);
    var t := "-" + d;
    assert TrimWhiteStart(t) == t;
    assert TrimWhiteEnd(t) == t by {
      assert t[|d|] == d[|d| - 1];
    }
    assert !AllDigits(t) by { assert t[0] == '-'; }
    assert t[1..] == d;
    NatToStringRoundTrip(n);
  }

  /**
   * "p-N": the custom format "D-N" applied to the count when -N fits in an `int`; otherwise
   * `int.TryParse` fails and the padding stays four.
   */
  lemma NegativePadding(m: BuildMetadata, n: nat)
    requires m.commitsSinceTag.Some? && n > 0
    ensures var r := PublicToString(m, Some("p-" + NatToString(n))); var c := m.commitsSinceTag.value;
      r == Ok(Some(if -(n as int) >= Int32Min then CustomFormat(c, "D-" + NatToString(n)) else PadDigits(c, 4)))
  {
    var d := NatToString(n);
    var f := "p-" + d;
    NegativeFormatKey(n);
    assert FormatKey(Some(f)) == f && "p" <= f;
    NegativePaddingValue(n);
  }

  /** The padding read from "p-N" is minus N, or four when that does not fit in an `int`. */
  lemma NegativePaddingValue(n: nat)
    ensures Padding("p-" + NatToString(n)) == if -(n as int) >= Int32Min then -(n as int) else 4
  {
    ParseNegative(n);
    PaddingOfSigned(NatToString(n), TryParseInt("-" + NatToString(n)));
  }

  /** The padding read from "p-" followed by `d` is what `int.TryParse` makes of "-" and `d`, or four. */
  lemma PaddingOfSigned(d: string, v: Option<int>)
    requires TryParseInt("-" + d) == v
    ensures Padding("p-" + d) == v.GetOr(4)
  {
    assert ("p-" + d)[1..] == "-" + d;
  }

  /** "p-N" with no '0' in N: "D-N" as it stands, whatever the count. */
  lemma NegativePaddingWithoutZero(m: BuildMetadata, n: nat)
    requires m.commitsSinceTag.Some? && 0 < n <= 0x8000_0000 && '0' !in NatToString(n)
    ensures PublicToString(m, Some("p-" + NatToString(n))) == Ok(Some("D-" + NatToString(n)))
  {
    NegativePadding(m, n);
    CustomFormatWithoutPlaceholders(m.commitsSinceTag.value, "D-" + NatToString(n));
  }

  /** The format "p-10" takes the count's digits in place of its '0': a count of 123 gives "D-1123". */
  lemma NegativePaddingTen(m: BuildMetadata, f: string)
    requires m.commitsSinceTag.Some? && f == "p-10"
    ensures PublicToString(m, Some(f)) == Ok(Some("D-1" + NatToString(m.commitsSinceTag.value)))
  {
    TenText();
    NegativePadding(m, 10);
    FillTen(m.commitsSinceTag.value);
  }

  /** A count of 5 with "p-10" gives "D-15", not the "D-10" a literal copy would give. */
  lemma NegativePaddingTenFive(m: BuildMetadata, f: string)
    requires m.commitsSinceTag == Some(5) && f == "p-10"
    ensures PublicToString(m, Some(f)) == Ok(Some("D-15"))
  {
    NegativePaddingTen(m, f);
    FiveText();
  }

  lemma FiveText()
    ensures "D-1" + NatToString(5) == "D-15"
  {
    assert NatToString(5) == "5";
  }

  lemma TenText()
    ensures "p-" + NatToString(10) == "p-10"
  {
    assert NatToString(10) == "10";
  }

  lemma HundredText()
    ensures "p-" + NatToString(100) == "p-100"
  {
    assert NatToString(100) == "100";
  }

  lemma FillTen(c: nat)
    ensures CustomFormat(c, "D-" + NatToString(10)) == "D-1" + NatToString(c)
  {
    assert NatToString(10) == "10";
    assert "D-" + NatToString(10) == "D-1" + "0" + "";
    CustomFormatOnePlaceholder(c, "D-1", "");
    assert "D-1" + NatToString(c) + "" == "D-1" + NatToString(c);
  }

  /** The format "p-100" with a count of 7: the two placeholders take "07", giving "D-107". */
  lemma NegativePaddingHundred(m: BuildMetadata, f: string)
    requires m.commitsSinceTag == Some(7) && f == "p-100"
    ensures PublicToString(m, Some(f)) == Ok(Some("D-107"))
  {
    HundredText();
    NegativePadding(m, 100);
    FillHundred();
  }

  lemma FillHundred()
    ensures CustomFormat(7, "D-" + NatToString(100)) == "D-107"
  {
    assert "D-" + NatToString(100) == "D-1" + "00" by {
      assert NatToString(100) == "100";
    }
    PlaceholdersNone("D-1");
    PlaceholdersAppend("D-1", "00");
    assert Placeholders("00") == 2 by {
      assert "00"[..1] == "0";
    }
    assert PadDigits(7, 2) == "07" by {
      assert NatToString(7) == "7" && Zeros(1) == "0";
    }
    FillTrailingPlaceholders("D-1", "07");
    assert "D-1" + "07" == "D-107";
  }

  /** "p4": the count padded to at least four digits, or "" without one. */
  lemma FourDigitFormat(m: BuildMetadata)
    ensures var r := PublicToString(m, Some("p4")); r.Ok? && r.value.Some?
    ensures var r := PublicToString(m, Some("p4")).value.value;
      (m.commitsSinceTag.None? ==> r == "") &&
      (m.commitsSinceTag.Some? ==> |r| >= 4 && AllDigits(r) && DigitsValue(r) == m.commitsSinceTag.value)
  {
    assert "p" + NatToString(4) == "p4";
    if m.commitsSinceTag.Some? {
      PaddedFormat(m, 4);
    } else {
      LowerCaseUnchanged("p4");
      PaddedFormatWithoutCount(m, "p4");
    }
  }

  /** "p" alone pads to four digits. */
  lemma DefaultPadding(m: BuildMetadata)
    requires m.commitsSinceTag.Some?
    ensures PublicToString(m, Some("p")) == Ok(Some(PadDigits(m.commitsSinceTag.value, 4)))
  {
    FormatKeyOfLiteral();
  }

  lemma PaddedFormatWithoutCount(m: BuildMetadata, format: string)
    requires m.commitsSinceTag.None? && "p" <= ToLower(format)
    ensures PublicToString(m, Some(format)) == Ok(Some(""))
  {
    assert ToLower(format) != [];
  }

  // ---------------------------------------------------------------------------
  // Parsing

  /** A matched group and the position after it. */
  datatype Segment = Segment(value: string, end: nat)

  /** `s` holds `word` at `i`, ignoring case. */
  predicate WordAt(s: string, i: nat, word: string)
  {
    i + |word| <= |s| && EqualsIgnoreCase(s[i..i + |word|], word)
  }

  /** `\.` at `k` followed by a character other than '.'. */
  predicate DotRunAt(s: string, k: nat)
  {
    k + 1 < |s| && s[k] == '.' && s[k + 1] != '.'
  }

  /** `seg` is the greedy `[^\.]+` run after the '.' at `k`: it stops at the next '.' or the end. */
  predicate RunFrom(s: string, k: nat, seg: Segment)
  {
    k + 1 < seg.end <= |s| && seg.value == s[k + 1..seg.end] && '.' !in seg.value &&
    (seg.end == |s| || s[seg.end] == '.')
  }

  /** A '.' and a non-empty `[^\.]+` run at `i`. */
  function DotRun(s: string, i: nat): Option<Segment>
    requires i <= |s|
  {
    if i < |s| && s[i] == '.' && RunWithout(s, i + 1, '.') > 0 then
      var n := RunWithout(s, i + 1, '.');
      Some(Segment(s[i + 1..i + 1 + n], i + 1 + n))
    else None
  }

  /** A dot run is found exactly at a '.' before another character, and is the greedy run. */
  lemma DotRunMeans(s: string, i: nat)
    requires i <= |s|
    ensures DotRun(s, i).Some? <==> DotRunAt(s, i)
    ensures DotRun(s, i).Some? ==> RunFrom(s, i, DotRun(s, i).value)
  {
    if DotRun(s, i).Some? {
      RunWithoutExcludes(s, i + 1, '.');
    }
  }

  /** The position after the optional `\.?` at `i`. */
  function OptionalDot(s: string, i: nat): nat
  {
    if i < |s| && s[i] == '.' then i + 1 else i
  }

  /** The group `(\.?Branch(Name)?\.(?<BranchName>[^\.]+))?` at `i`. */
  function BranchSegment(s: string, i: nat): (r: Option<Segment>)
    requires i <= |s|
    ensures r.Some? ==> i < r.value.end <= |s|
  {
    var j := OptionalDot(s, i);
    if WordAt(s, j, "branch") then
      var k := j + 6;
      if WordAt(s, k, "name") && DotRun(s, k + 4).Some? then DotRun(s, k + 4)
      else DotRun(s, k)
    else None
  }

  /**
   * The branch group is present exactly when "branch" follows the optional dot, ignoring
   * case, and then a dot run, or "name" and a dot run; its value is the greedy run after
   * "name" when that is there, else after "branch".
   */
  lemma BranchSegmentMeans(s: string, i: nat)
    requires i <= |s|
    ensures var j, r := OptionalDot(s, i), BranchSegment(s, i); r.Some? <==>
      WordAt(s, j, "branch") && (DotRunAt(s, j + 6) || (WordAt(s, j + 6, "name") && DotRunAt(s, j + 10)))
    ensures var j, r := OptionalDot(s, i), BranchSegment(s, i); r.Some? ==>
      RunFrom(s, if WordAt(s, j + 6, "name") && DotRunAt(s, j + 10) then j + 10 else j + 6, r.value)
  {
    var j := OptionalDot(s, i);
    if WordAt(s, j, "branch") {
      DotRunMeans(s, j + 6);
      if j + 10 <= |s| {
        DotRunMeans(s, j + 10);
      }
    }
  }

  /** The group `(\.?Sha?\.(?<Sha>[^\.]+))?` at `i`. */
  function ShaSegment(s: string, i: nat): (r: Option<Segment>)
    requires i <= |s|
    ensures r.Some? ==> i < r.value.end <= |s|
  {
    var j := OptionalDot(s, i);
    if WordAt(s, j, "sh") then
      var k := j + 2;
      if WordAt(s, k, "a") && DotRun(s, k + 1).Some? then DotRun(s, k + 1)
      else DotRun(s, k)
    else None
  }

  /**
   * The sha group is present exactly when "sh" follows the optional dot, ignoring case,
   * and then a dot run, or "a" and a dot run; its value is the greedy run after the "a"
   * when that is there, else after "sh".
   */
  lemma ShaSegmentMeans(s: string, i: nat)
    requires i <= |s|
    ensures var j, r := OptionalDot(s, i), ShaSegment(s, i); r.Some? <==>
      WordAt(s, j, "sh") && (DotRunAt(s, j + 2) || (WordAt(s, j + 2, "a") && DotRunAt(s, j + 3)))
    ensures var j, r := OptionalDot(s, i), ShaSegment(s, i); r.Some? ==>
      RunFrom(s, if WordAt(s, j + 2, "a") && DotRunAt(s, j + 3) then j + 3 else j + 2, r.value)
  {
    var j := OptionalDot(s, i);
    if WordAt(s, j, "sh") {
      DotRunMeans(s, j + 2);
      if j + 3 <= |s| {
        DotRunMeans(s, j + 3);
      }
    }
  }

  /** `.*`: the text up to the first '\n'. */
  function FirstLine(s: string): (r: string)
    ensures r <= s && '\n' !in r
  {
    if s == [] || s[0] == '\n' then [] else [s[0]] + FirstLine(s[1..])
  }

  /** The groups of the match, which always starts at position 0. */
  datatype Groups = Groups(buildNumber: Option<nat>, branchName: Option<string>, sha: Option<string>, other: string)

  function Match(s: string): Groups
  {
    var n := DigitRun(s, 0);
    var count := if n > 0 then Some(DigitsValue(s[..n])) else None;
    var b := BranchSegment(s, n);
    var p := if b.Some? then b.value.end else n;
    var h := ShaSegment(s, p);
    var q := if h.Some? then h.value.end else p;
    Groups(count, if b.Some? then Some(b.value.value) else None,
           if h.Some? then Some(h.value.value) else None, FirstLine(s[q..]))
  }

  /** `BuildMetadata.Parse(s)`. */
  function Parse(s: Option<string>): (r: BuildMetadata)
    ensures NullOrEmpty(s) ==> r == Default()
    ensures r.commitDate == MinDate
    ensures r.commitsSinceVersionSource == r.commitsSinceTag.GetOr(0)
  {
    if NullOrEmpty(s) then Default()
    else
      var g := Match(s.value);
      Create(g.buildNumber, g.branchName, g.sha, MinDate, if g.other != [] then Some(TrimStart(g.other, '.')) else None)
  }

  lemma ParseNullOrEmpty()
    ensures Parse(None) == BuildMetadata(None, None, None, None, MinDate, 0)
    ensures Parse(Some("")) == Parse(None)
  {
  }
}

module BuildMetadataRoundTrip {
  import opened Wrappers
  import opened Text
  import opened BuildMetadatas

  /**
   * What the "f" text can carry back: a Branch and a Sha that are absent or
   * non-empty and free of '.', and other metadata only behind a Sha (without one,
   * ".Sha.x" inside the other text would be read back as a Sha).
   */
  predicate FullFormatInvertible(m: BuildMetadata)
  {
    (m.branch.None? || (m.branch.value != [] && '.' !in m.branch.value)) &&
    (m.sha.None? || (m.sha.value != [] && '.' !in m.sha.value)) &&
    (m.sha.Some? || NullOrEmpty(m.otherMetaData))
  }

  lemma DotRunOf(s: string, i: nat, b: string)
    requires b != [] && '.' !in b
    requires i + 1 + |b| <= |s| && s[i] == '.' && s[i + 1..i + 1 + |b|] == b
    requires i + 1 + |b| == |s| || s[i + 1 + |b|] == '.'
    ensures DotRun(s, i) == Some(Segment(b, i + 1 + |b|))
  {
    forall k | i + 1 <= k < i + 1 + |b| ensures s[k] != '.' {
      assert s[k] == b[k - i - 1];
    }
    RunWithoutOf(s, i + 1, '.', |b|);
  }

  lemma BranchSegmentFound(s: string, i: nat, lead: string, b: string)
    requires lead == "" || lead == "."
    requires b != [] && '.' !in b
    requires i + |lead| + 7 + |b| <= |s| && s[i..i + |lead| + 7 + |b|] == lead + "Branch." + b
    requires i + |lead| + 7 + |b| == |s| || s[i + |lead| + 7 + |b|] == '.'
    ensures BranchSegment(s, i) == Some(Segment(b, i + |lead| + 7 + |b|))
  {
    var t, j := lead + "Branch." + b, i + |lead|;
    assert s[j..j + 7] == "Branch." && s[j + 7..j + 7 + |b|] == b by {
      Parts3(lead, "Branch.", b);
      SliceWithin(s, i, t, |lead|, |lead| + 7);
      SliceWithin(s, i, t, |lead| + 7, |t|);
    }
    BranchWordAt(s, j, b);
    assert OptionalDot(s, i) == j by {
      if lead == "." { assert s[i] == t[0]; }
    }
  }

  /** `Branch.` and a run without '.' at `j`: the branch group without its optional lead. */
  lemma BranchWordAt(s: string, j: nat, b: string)
    requires b != [] && '.' !in b
    requires j + 7 + |b| <= |s| && s[j..j + 7] == "Branch." && s[j + 7..j + 7 + |b|] == b
    requires j + 7 + |b| == |s| || s[j + 7 + |b|] == '.'
    ensures s[j] == 'B'
    ensures WordAt(s, j, "branch") && !WordAt(s, j + 6, "name") && DotRun(s, j + 6) == Some(Segment(b, j + 7 + |b|))
  {
    SliceWithin(s, j, "Branch.", 0, 6);
    assert "Branch."[..6] == "Branch" && "Branch."[6] == '.';
    assert s[j] == "Branch."[0];
    assert ToLower("Branch") == "branch";
    var k := j + 6;
    assert s[k] == '.';
    assert !WordAt(s, k, "name") by {
      if k + 4 <= |s| {
        assert ToLower(s[k..k + 4])[0] == '.';
      }
    }
    DotRunOf(s, k, b);
  }

  lemma BranchSegmentNotFound(s: string, i: nat)
    requires i <= |s|
    requires i == |s| || s[i] == 'S' || (s[i] == '.' && i + 1 < |s| && s[i + 1] == 'S')
    ensures BranchSegment(s, i).None?
  {
    var j := if i < |s| && s[i] == '.' then i + 1 else i;
    if j + 6 <= |s| {
      assert ToLower(s[j..j + 6])[0] == 's';
      assert ToLower("branch")[0] == 'b';
    }
  }

  lemma ShaSegmentFound(s: string, i: nat, lead: string, h: string)
    requires lead == "" || lead == "."
    requires h != [] && '.' !in h
    requires i + |lead| + 4 + |h| <= |s| && s[i..i + |lead| + 4 + |h|] == lead + "Sha." + h
    requires i + |lead| + 4 + |h| == |s| || s[i + |lead| + 4 + |h|] == '.'
    ensures ShaSegment(s, i) == Some(Segment(h, i + |lead| + 4 + |h|))
  {
    var t := lead + "Sha." + h;
    Parts3(lead, "Sha.", h);
    SliceWithin(s, i, t, 0, |lead|);
    SliceWithin(s, i, t, |lead|, |lead| + 4);
    SliceWithin(s, i, t, |lead| + 4, |t|);
    var j := i + |lead|;
    ShaWordAt(s, j, h);
    assert (if i < |s| && s[i] == '.' then i + 1 else i) == j by {
      if lead == "." { assert s[i] == lead[0]; } else { assert s[i] == 'S'; }
    }
  }

  /** `Sha.` and a run without '.' at `j`: the sha group without its optional lead. */
  lemma ShaWordAt(s: string, j: nat, h: string)
    requires h != [] && '.' !in h
    requires j + 4 + |h| <= |s| && s[j..j + 4] == "Sha." && s[j + 4..j + 4 + |h|] == h
    requires j + 4 + |h| == |s| || s[j + 4 + |h|] == '.'
    ensures s[j] == 'S'
    ensures WordAt(s, j, "sh") && WordAt(s, j + 2, "a") && DotRun(s, j + 3) == Some(Segment(h, j + 4 + |h|))
  {
    assert s[j] == "Sha."[0];
    SliceWithin(s, j, "Sha.", 0, 2);
    SliceWithin(s, j, "Sha.", 2, 3);
    assert "Sha."[..2] == "Sh" && "Sha."[2..3] == "a" && "Sha."[3] == '.';
    assert ToLower("Sh") == "sh";
    assert ToLower("a") == "a";
    assert s[j + 3] == '.';
    DotRunOf(s, j + 3, h);
  }

  lemma TrimStartUnchanged(s: string, c: char)
    requires s == [] || s[0] != c
    ensures TrimStart(s, c) == s
  {
  }

  lemma TrimStartOne(s: string, c: char)
    requires s != [] && s[0] == c && (|s| == 1 || s[1] != c)
    ensures TrimStart(s, c) == s[1..]
  {
  }

  /** The "f" text after `TrimStart('.')`, written part by part. */
  function TrimmedFullText(m: BuildMetadata): string
  {
    CountText(m) + BranchText(m) + ShaText(m) + OtherText(m)
  }

  function BranchText(m: BuildMetadata): string
  {
    if m.branch.Some? then (if CountText(m) == [] then "" else ".") + "Branch." + m.branch.value else ""
  }

  function ShaText(m: BuildMetadata): string
  {
    if m.sha.Some? then (if CountText(m) == [] && BranchText(m) == [] then "" else ".") + "Sha." + m.sha.value else ""
  }

  function OtherText(m: BuildMetadata): string
  {
    Part(".", m.otherMetaData)
  }

  lemma TrimmedFullTextIsTrimStart(m: BuildMetadata)
    requires FullFormatInvertible(m)
    ensures TrimStart(FullText(m), '.') == TrimmedFullText(m)
  {
    if CountText(m) != [] {
      TrimAfterCount(m);
    } else if m.branch.Some? {
      TrimBeforeBranch(m);
    } else if m.sha.Some? {
      TrimBeforeSha(m);
    } else {
      assert FullText(m) == [] && TrimmedFullText(m) == [];
    }
  }

  /** With a count the "f" text starts with a digit, so nothing is trimmed. */
  lemma TrimAfterCount(m: BuildMetadata)
    requires FullFormatInvertible(m) && CountText(m) != []
    ensures TrimStart(FullText(m), '.') == TrimmedFullText(m)
  {
    var c := CountText(m);
    NatToStringRoundTrip(m.commitsSinceTag.value);
    assert IsDigit(c[0]);
    assert BranchText(m) == Part(".Branch.", m.branch) && ShaText(m) == Part(".Sha.", m.sha);
    var t := TrimmedFullText(m);
    assert FullText(m) == t;
    assert t[0] == c[0];
    TrimStartUnchanged(t, '.');
  }

  /** Without a count, the '.' before "Branch." is the one trimmed. */
  lemma TrimBeforeBranch(m: BuildMetadata)
    requires FullFormatInvertible(m) && CountText(m) == [] && m.branch.Some?
    ensures TrimStart(FullText(m), '.') == TrimmedFullText(m)
  {
    var bt, rest := BranchText(m), ShaText(m) + OtherText(m);
    assert ShaText(m) == Part(".Sha.", m.sha);
    assert Part(".Branch.", m.branch) == "." + bt;
    assert FullText(m) == "." + (bt + rest);
    assert TrimmedFullText(m) == bt + rest;
    assert bt[0] == 'B';
    TrimOneDot(bt + rest);
  }

  /** Without a count or a branch, the '.' before "Sha." is the one trimmed. */
  lemma TrimBeforeSha(m: BuildMetadata)
    requires FullFormatInvertible(m) && CountText(m) == [] && m.branch.None? && m.sha.Some?
    ensures TrimStart(FullText(m), '.') == TrimmedFullText(m)
  {
    var st, ot := ShaText(m), OtherText(m);
    assert BranchText(m) == [] && Part(".Branch.", m.branch) == [];
    assert Part(".Sha.", m.sha) == "." + st;
    assert FullText(m) == "." + (st + ot);
    assert TrimmedFullText(m) == st + ot;
    assert st[0] == 'S';
    TrimOneDot(st + ot);
  }

  /** One leading '.' before a text that does not start with one is trimmed. */
  lemma TrimOneDot(t: string)
    requires t != [] && t[0] != '.'
    ensures TrimStart("." + t, '.') == t
  {
    TrimStartOne("." + t, '.');
    assert ("." + t)[1..] == t;
  }

  lemma MatchCount(m: BuildMetadata)
    requires FullFormatInvertible(m)
    ensures Match(TrimmedFullText(m)).buildNumber == m.commitsSinceTag
    ensures DigitRun(TrimmedFullText(m), 0) == |CountText(m)|
  {
    var c := CountText(m);
    var rest := BranchText(m) + ShaText(m) + OtherText(m);
    assert TrimmedFullText(m) == c + rest;
    AfterCount(m);
    if m.commitsSinceTag.Some? { NatToStringRoundTrip(m.commitsSinceTag.value); }
    CountAt(TrimmedFullText(m), c, rest);
  }

  /** What follows the count in the trimmed "f" text does not start with a digit. */
  lemma AfterCount(m: BuildMetadata)
    requires FullFormatInvertible(m)
    ensures AllDigits(CountText(m))
    ensures var rest := BranchText(m) + ShaText(m) + OtherText(m); rest == [] || !IsDigit(rest[0])
  {
    var bt, st, ot := BranchText(m), ShaText(m), OtherText(m);
    if m.commitsSinceTag.Some? { NatToStringRoundTrip(m.commitsSinceTag.value); }
    assert bt != [] ==> bt[0] == 'B' || bt[0] == '.';
    assert st != [] ==> st[0] == 'S' || st[0] == '.';
    assert ot != [] ==> ot[0] == '.';
    var rest := bt + st + ot;
    assert bt != [] ==> rest[0] == bt[0];
    assert bt == [] && st != [] ==> rest[0] == st[0];
    assert bt == [] && st == [] ==> rest == ot;
  }

  /** The digit run at the start of `c + rest`, for digits `c` and a `rest` that does not start with one. */
  lemma CountAt(t: string, c: string, rest: string)
    requires t == c + rest && AllDigits(c) && (rest == [] || !IsDigit(rest[0]))
    ensures DigitRun(t, 0) == |c| && t[..|c|] == c
  {
    assert t[..|c|] == c;
    DigitRunOf(t, 0, |c|) by {
      forall k | 0 <= k < |c| ensures IsDigit(t[k]) { assert t[k] == c[k]; }
      if |c| < |t| {
        assert t[|c|] == rest[0];
      }
    }
  }

  lemma MatchBranch(m: BuildMetadata)
    requires FullFormatInvertible(m)
    ensures var t, p := TrimmedFullText(m), |CountText(m)|;
      p <= |t| && BranchSegment(t, p) == if m.branch.Some? then Some(Segment(m.branch.value, p + |BranchText(m)|)) else None
  {
    TextStarts(m);
    BranchAt(CountText(m), BranchText(m), ShaText(m), OtherText(m), m.branch, |CountText(m)|);
  }

  /**
   * The layout of the "f" text `c + bt + st + ot` that the branch group depends on: the branch
   * part `bt` is empty without a branch, the sha part `st` starts with "Sha" or ".Sha", and the
   * other part `ot` with a dot.
   */
  predicate BranchLayout(c: string, bt: string, st: string, ot: string, branch: Option<string>)
  {
    && (branch.None? <==> bt == [])
    && (branch.Some? ==> branch.value != [] && '.' !in branch.value && bt == (if c == [] then "" else ".") + "Branch." + branch.value)
    && (ot == [] || ot[0] == '.') && (st == [] ==> ot == [])
    && (st != [] ==> if c + bt == [] then st[0] == 'S' else |st| >= 2 && st[0] == '.' && st[1] == 'S')
  }

  /**
   * The branch group of a text `c + bt + st + ot` laid out as the "f" text: the count `c`,
   * the branch part `bt` (empty without a branch), then a sha part `st` starting with "Sha"
   * or ".Sha", or nothing, then the other part `ot`.
   */
  lemma BranchAt(c: string, bt: string, st: string, ot: string, branch: Option<string>, p: nat)
    requires p == |c| && BranchLayout(c, bt, st, ot, branch)
    ensures var t := c + bt + st + ot;
      p <= |t| && BranchSegment(t, p) == if branch.Some? then Some(Segment(branch.value, p + |bt|)) else None
  {
    var t, rest := c + bt + st + ot, st + ot;
    assert t == c + bt + rest;
    assert st != [] ==> rest[0] == st[0];
    assert st == [] ==> rest == ot;
    if branch.Some? {
      BranchFoundAt(t, c, bt, rest, branch.value);
    } else {
      assert st != [] && c != [] ==> rest[1] == st[1];
      assert t == c + rest;
      BranchAbsentAt(t, c, rest);
    }
  }

  /** How the parts of the trimmed "f" text begin. */
  lemma TextStarts(m: BuildMetadata)
    requires FullFormatInvertible(m)
    ensures BranchLayout(CountText(m), BranchText(m), ShaText(m), OtherText(m), m.branch)
  {
    var c, bt := CountText(m), BranchText(m);
    assert c + bt == [] <==> c == [] && bt == [];
  }

  /** The branch group of a text `c + bt + rest` whose branch part `bt` follows the count `c`. */
  lemma BranchFoundAt(t: string, c: string, bt: string, rest: string, b: string)
    requires t == c + bt + rest && (rest == [] || rest[0] == '.')
    requires b != [] && '.' !in b && bt == (if c == [] then "" else ".") + "Branch." + b
    ensures |c| <= |t| && BranchSegment(t, |c|) == Some(Segment(b, |c| + |bt|))
  {
    Parts3(c, bt, rest);
    var p1 := |c| + |bt|;
    if p1 < |t| { assert t[p1] == rest[0]; }
    BranchSegmentFound(t, |c|, if c == [] then "" else ".", b);
  }

  /** No branch group after the count `c` when a sha part or nothing follows it. */
  lemma BranchAbsentAt(t: string, c: string, rest: string)
    requires t == c + rest
    requires rest == [] || (c == [] && rest[0] == 'S') || (c != [] && |rest| >= 2 && rest[0] == '.' && rest[1] == 'S')
    ensures |c| <= |t| && BranchSegment(t, |c|).None?
  {
    var p0 := |c|;
    if p0 < |t| {
      assert t[p0] == rest[0];
      if c != [] { assert t[p0 + 1] == rest[1]; }
    }
    BranchSegmentNotFound(t, p0);
  }

  /** The sha group of a text `pre + st + ot` whose sha part `st` follows `pre`. */
  lemma ShaAt(pre: string, st: string, ot: string, sha: Option<string>, p: nat)
    requires (ot == [] || ot[0] == '.') && p == |pre|
    requires sha.None? ==> st == [] && ot == []
    requires sha.Some? ==> (sha.value != [] && '.' !in sha.value && st == (if pre == [] then "" else ".") + "Sha." + sha.value)
    ensures var t := pre + st + ot;
      p <= |t| && ShaSegment(t, p) == if sha.Some? then Some(Segment(sha.value, p + |st|)) else None
  {
    if sha.Some? {
      ShaFoundAt(pre + st + ot, pre, st, ot, sha.value, p);
    } else {
      assert pre + st + ot == pre;
      ShaAtEnd(pre);
    }
  }

  /** No sha group starts at the end of a text. */
  lemma ShaAtEnd(t: string)
    ensures ShaSegment(t, |t|).None?
  {
    assert OptionalDot(t, |t|) == |t|;
  }

  /** The sha part of the "f" text after the count and branch parts, and what follows it. */
  lemma ShaTextForm(m: BuildMetadata)
    requires FullFormatInvertible(m)
    ensures m.sha.Some? ==> ShaText(m) == (if CountText(m) + BranchText(m) == [] then "" else ".") + "Sha." + m.sha.value
    ensures m.sha.None? ==> ShaText(m) == [] && OtherText(m) == []
    ensures OtherText(m) == [] || OtherText(m)[0] == '.'
  {
    var c, bt := CountText(m), BranchText(m);
    assert c + bt == [] <==> c == [] && bt == [];
  }

  /** The sha group of a text `pre + st + ot` whose sha part `st` follows `pre`. */
  lemma ShaFoundAt(t: string, pre: string, st: string, ot: string, h: string, p: nat)
    requires t == pre + st + ot && (ot == [] || ot[0] == '.') && p == |pre|
    requires h != [] && '.' !in h && st == (if pre == [] then "" else ".") + "Sha." + h
    ensures p <= |t| && ShaSegment(t, p) == Some(Segment(h, p + |st|))
  {
    var lead := if pre == [] then "" else ".";
    assert |st| == |lead| + 4 + |h|;
    PartFollowedByDot(t, pre, st, ot);
    ShaSegmentFound(t, |pre|, lead, h);
  }

  /** The middle part of `pre + st + ot`, where `ot` is empty or starts with '.', is followed by the end or a '.'. */
  lemma PartFollowedByDot(t: string, pre: string, st: string, ot: string)
    requires t == pre + st + ot && (ot == [] || ot[0] == '.')
    ensures |pre| + |st| <= |t| && t[|pre|..|pre| + |st|] == st
    ensures |pre| + |st| == |t| || t[|pre| + |st|] == '.'
  {
    Parts3(pre, st, ot);
    var p2 := |pre| + |st|;
    if p2 < |t| { assert t[p2] == ot[0]; }
  }

  /** The public "f" format is the trimmed full text. */
  lemma FullFormatText(m: BuildMetadata)
    requires FullFormatInvertible(m)
    ensures PublicToString(m, Some("f")) == Ok(Some(TrimmedFullText(m)))
  {
    FullFormat(m);
    TrimmedFullTextIsTrimStart(m);
  }

  lemma MatchGroups(m: BuildMetadata)
    requires FullFormatInvertible(m)
    ensures var g := Match(TrimmedFullText(m));
      g.buildNumber == m.commitsSinceTag && g.branchName == m.branch && g.sha == m.sha
  {
    MatchCount(m);
    MatchBranch(m);
    ShaTextForm(m);
    ShaAt(CountText(m) + BranchText(m), ShaText(m), OtherText(m), m.sha, |CountText(m)| + |BranchText(m)|);
  }

  /** Parsing the "f" text gives back a value `Equals` to the original. */
  lemma FullFormatRoundTrip(m: BuildMetadata)
    requires FullFormatInvertible(m)
    ensures PublicToString(m, Some("f")) == Ok(Some(TrimmedFullText(m)))
    ensures Parse(Some(TrimmedFullText(m))).Equals(Some(m))
  {
    FullFormatText(m);
    if TrimmedFullText(m) == [] {
      assert CountText(m) == [] && BranchText(m) == [] && ShaText(m) == [];
    } else {
      MatchGroups(m);
    }
  }

  /** The untrimmed view of the round trip: the "f" text with its leading dot trimmed parses back. */
  lemma FullTextRoundTrip(m: BuildMetadata)
    requires FullFormatInvertible(m)
    ensures Parse(Some(TrimStart(FullText(m), '.'))).Equals(Some(m))
  {
    FullFormatRoundTrip(m);
    TrimmedFullTextIsTrimStart(m);
  }
}
