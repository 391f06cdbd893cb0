/**
 * The pre-release tag of a semantic version: an optional name and an optional number.
 * Parsing follows the pattern `(?<name>.*?)\.?(?<number>\d+)?$`; ordering puts a
 * non-null tag above the null tag, then compares names ignoring case, then numbers.
 */
module PreReleaseTags {
  import opened Wrappers
  import opened Text
  import opened Hashes

  /** `Name` is a string reference (null is `None`); `Number` is an `int?`. */
  datatype PreReleaseTag = PreReleaseTag(name: Option<string>, number: Option<nat>)
  {
    /** `IsNull()`: the name is null or empty. */
    predicate IsNull()
    {
      name.None? || name.value == []
    }

    /** `Equals(PreReleaseTag other)`: ordinal-equal names and equal numbers; false for null. */
    predicate Equals(other: Option<PreReleaseTag>)
    {
      other.Some? && name == other.value.name && number == other.value.number
    }
  }

  /** `new PreReleaseTag()`: name null, number absent. */
  const NullTag: PreReleaseTag := PreReleaseTag(None, None)

  /** `static bool operator ==`: `object.Equals(left, right)`, so null equals only null. */
  predicate OperatorEquals(left: Option<PreReleaseTag>, right: Option<PreReleaseTag>)
  {
    if left.None? then right.None? else left.value.Equals(right)
  }

  lemma OperatorEqualsIsValueEquality(left: Option<PreReleaseTag>, right: Option<PreReleaseTag>)
    ensures OperatorEquals(left, right) <==> left == right
  {
  }

  /** `GetHashCode()`: `((Name?.GetHashCode() ?? 0) * 397) ^ Number.GetHashCode()`. */
  function HashCode(t: PreReleaseTag): bv32
  {
    Mix(OptionStringHash(t.name), NullableIntHash(t.number))
  }

  lemma EqualsImpliesEqualHashCode(a: PreReleaseTag, b: PreReleaseTag)
    requires a.Equals(Some(b))
    ensures HashCode(a) == HashCode(b)
  {
  }

  // ---------------------------------------------------------------------------
  // Parsing

  /** The digit run `\d+` of the number group, after an optional leading '.'. */
  predicate TailMatches(u: string)
  {
    AllDigits(u) || (u != [] && u[0] == '.' && AllDigits(u[1..]))
  }

  function TailDigits(u: string): string
  {
    if u != [] && u[0] == '.' then u[1..] else u
  }

  /** The length of the longest run of digits that ends `t`. */
  function TrailingDigitCount(t: string): (n: nat)
    ensures n <= |t|
    ensures forall i :: |t| - n <= i < |t| ==> IsDigit(t[i])
    ensures n < |t| ==> !IsDigit(t[|t| - n - 1])
  {
    if t != [] && IsDigit(t[|t| - 1]) then TrailingDigitCount(t[..|t| - 1]) + 1 else 0
  }

  datatype TagSplit = TagSplit(name: string, digits: string)

  /**
   * The match of the pattern on one line `t`: the name is the SHORTEST prefix of
   * `t` whose remainder is an optional '.' followed by digits only (lazy `.*?`), and
   * the number group holds those digits.
   */
  function SplitTag(t: string): (r: TagSplit)
    ensures |r.name| <= |t| && t[..|r.name|] == r.name
    ensures TailMatches(t[|r.name|..]) && TailDigits(t[|r.name|..]) == r.digits
    ensures AllDigits(r.digits)
    ensures forall j :: 0 <= j < |r.name| ==> !TailMatches(t[j..])
  {
    var n := TrailingDigitCount(t);
    var x := t[..|t| - n];
    var d := t[|t| - n..];
    var name := if x != [] && x[|x| - 1] == '.' then x[..|x| - 1] else x;
    SplitTagMinimal(t, n, name);
    assert name != x ==> t[|name|..] == ['.'] + d;
    TagSplit(name, d)
  }

  lemma SplitTagMinimal(t: string, n: nat, name: string)
    requires n == TrailingDigitCount(t)
    requires var x := t[..|t| - n]; name == if x != [] && x[|x| - 1] == '.' then x[..|x| - 1] else x
    ensures forall j :: 0 <= j < |name| ==> !TailMatches(t[j..])
  {
    var x := t[..|t| - n];
    forall j | 0 <= j < |name| ensures !TailMatches(t[j..]) {
      assert t[j..][|x| - 1 - j] == t[|x| - 1];
      if |name| == |x| - 1 {
        assert t[j..][|x| - 2 - j] == t[|x| - 2];
      }
    }
  }

  /** The number group, if it matched. */
  function SplitNumber(sp: TagSplit): Option<nat>
    requires AllDigits(sp.digits)
  {
    if sp.digits == [] then None else Some(DigitsValue(sp.digits))
  }

  function DropFinalNewline(s: string): string
  {
    if s != [] && s[|s| - 1] == '\n' then s[..|s| - 1] else s
  }

  /** The text after the last '\n' of `s` (all of `s` when it has none). */
  function LastLine(s: string): (r: string)
    ensures '\n' !in r
    ensures |r| <= |s| && s[|s| - |r|..] == r
    ensures '\n' !in s ==> r == s
  {
    if s == [] then []
    else if s[|s| - 1] == '\n' then []
    else
      var r := LastLine(s[..|s| - 1]);
      assert s[|s| - |r| - 1..] == s[..|s| - 1][|s| - 1 - |r|..] + [s[|s| - 1]];
      r + [s[|s| - 1]]
  }

  predicate EndsWith(s: string, c: char)
  {
    s != [] && s[|s| - 1] == c
  }

  /**
   * `PreReleaseTag.Parse(s)`. The pattern is unanchored at the start, and `.` does
   * not match '\n' while `$` also matches before a final '\n': the match therefore
   * starts on the last line of `s` with one final '\n' removed.
   */
  function Parse(s: Option<string>): (r: PreReleaseTag)
    ensures s.None? || s.value == [] ==> r == NullTag
    ensures s.Some? && s.value != [] ==> r.name.Some?
    ensures s.Some? && s.value != [] && '\n' !in s.value ==>
      var sp := SplitTag(s.value);
      r == if EndsWith(sp.name, '-') then PreReleaseTag(s, None) else PreReleaseTag(Some(sp.name), SplitNumber(sp))
  {
    if s.None? || s.value == [] then NullTag
    else
      var sp := SplitTag(LastLine(DropFinalNewline(s.value)));
      if EndsWith(sp.name, '-') then PreReleaseTag(s, None)
      else PreReleaseTag(Some(sp.name), SplitNumber(sp))
  }

  // ---------------------------------------------------------------------------
  // Formatting

  /** `$"{Name}.{Number}"` or `Name`: the "t" form, null when the name is null and no number. */
  function TagText(t: PreReleaseTag): Option<string>
  {
    match t.number
    case Some(n) => Some(t.name.GetOr([]) + "." + NatToString(n))
    case None => t.name
  }

  /** `ToString(format)` without a format provider: null or empty means "t". */
  function ToString(t: PreReleaseTag, format: Option<string>): (r: Result<Option<string>>)
    ensures r.Ok? <==> format.None? || format.value == [] || format.value == "t"
    ensures r.Ok? ==> r.value == TagText(t)
    ensures r.Err? ==> r.error.ArgumentException?
  {
    var f := if format.None? || format.value == [] then "t" else format.value;
    if f == "t" then Ok(TagText(t)) else Err(ArgumentException("Unknown format"))
  }

  // ---------------------------------------------------------------------------
  // Ordering

  function CompareNumbers(a: Option<nat>, b: Option<nat>): int
  {
    match (a, b)
    case (None, None) => 0
    case (None, Some(_)) => -1
    case (Some(_), None) => 1
    case (Some(x), Some(y)) => if x < y then -1 else if x > y then 1 else 0
  }

  /** `CompareTo(PreReleaseTag other)` for a non-null `other`. */
  function CompareTo(a: PreReleaseTag, b: PreReleaseTag): int
  {
    if !a.IsNull() && b.IsNull() then 1
    else if a.IsNull() && !b.IsNull() then -1
    else
      var c := CompareNullableIgnoreCase(a.name, b.name);
      if c != 0 then c else CompareNumbers(a.number, b.number)
  }

  /** `operator >`. */
  predicate Greater(a: PreReleaseTag, b: PreReleaseTag)
  {
    CompareTo(a, b) > 0
  }

  /** `operator <=`: compares only the names, ignoring case. */
  predicate LessOrEqual(a: PreReleaseTag, b: PreReleaseTag)
  {
    CompareNullableIgnoreCase(a.name, b.name) != 1
  }

  lemma CompareToIsSign(a: PreReleaseTag, b: PreReleaseTag)
    ensures CompareTo(a, b) in {-1, 0, 1}
  {
  }

  lemma CompareToNullOrder(a: PreReleaseTag, b: PreReleaseTag)
    ensures !a.IsNull() && b.IsNull() ==> CompareTo(a, b) == 1
    ensures a.IsNull() && !b.IsNull() ==> CompareTo(a, b) == -1
  {
  }

  /** Zero exactly when the names agree up to case (both null or both non-null) and the numbers agree. */
  lemma CompareToZero(a: PreReleaseTag, b: PreReleaseTag)
    ensures CompareTo(a, b) == 0 <==>
      a.IsNull() == b.IsNull() && a.name.Some? == b.name.Some? && a.number == b.number &&
      (a.name.Some? ==> EqualsIgnoreCase(a.name.value, b.name.value))
  {
  }

  lemma CompareToAntisymmetric(a: PreReleaseTag, b: PreReleaseTag)
    ensures CompareTo(a, b) == -CompareTo(b, a)
  {
    CompareNullableIgnoreCaseAntisymmetric(a.name, b.name);
  }

  lemma CompareToTransitive(a: PreReleaseTag, b: PreReleaseTag, c: PreReleaseTag)
    requires CompareTo(a, b) <= 0 && CompareTo(b, c) <= 0
    ensures CompareTo(a, c) <= 0
  {
    if !a.IsNull() == !b.IsNull() && !b.IsNull() == !c.IsNull() {
      if a.name.Some? && b.name.Some? && c.name.Some? {
        var la, lb, lc := ToLower(a.name.value), ToLower(b.name.value), ToLower(c.name.value);
        CompareOrdinalTransitive(la, lb, lc);
        if CompareOrdinal(la, lc) == 0 {
          CompareOrdinalAntisymmetric(la, lb);
          CompareOrdinalTransitive(lb, lc, la);
        }
      }
    }
  }

  /** Two tags differing only in letter case compare as equal but are not `Equals`. */
  lemma CaseOnlyDifference(n: Option<nat>)
    ensures var a, b := PreReleaseTag(Some("Beta"), n), PreReleaseTag(Some("beta"), n);
      CompareTo(a, b) == 0 && !a.Equals(Some(b)) && !OperatorEquals(Some(a), Some(b))
  {
    var a, b := PreReleaseTag(Some("Beta"), n), PreReleaseTag(Some("beta"), n);
    assert ToLower("Beta") == "beta";
    assert ToLower("beta") == "beta";
    assert a.name.value[0] != b.name.value[0];
  }

  /** `<=` follows from `CompareTo <= 0`, but the converse fails: `<=` ignores the number. */
  lemma LessOrEqualWeakerThanCompareTo(a: PreReleaseTag, b: PreReleaseTag)
    ensures CompareTo(a, b) <= 0 ==> LessOrEqual(a, b)
  {
  }

  lemma LessOrEqualIgnoresNumber()
    ensures var a, b := PreReleaseTag(Some("beta"), Some(2)), PreReleaseTag(Some("beta"), Some(1));
      LessOrEqual(a, b) && CompareTo(a, b) == 1
  {
    assert ToLower("beta") == "beta";
  }

  // ---------------------------------------------------------------------------
  // Examples and round trip

  lemma ParseExampleBeta4()
    ensures Parse(Some("beta4")) == PreReleaseTag(Some("beta"), Some(4))
  {
    assert '\n' !in "beta4";
    SplitTagOfUndotted("beta", "4");
    assert "beta" + "4" == "beta4";
    assert DigitsValue("4") == 4;
    assert !EndsWith("beta", '-');
  }

  lemma ParseExampleBetaDot4()
    ensures Parse(Some("beta.4")) == PreReleaseTag(Some("beta"), Some(4))
  {
    assert '\n' !in "beta.4";
    SplitTagOfNumbered("beta", "4");
    assert "beta" + "." + "4" == "beta.4";
    assert DigitsValue("4") == 4;
    assert !EndsWith("beta", '-');
  }

  lemma ParseExampleRc12()
    ensures Parse(Some("rc1.2")) == PreReleaseTag(Some("rc1"), Some(2))
  {
    assert '\n' !in "rc1.2";
    SplitTagOfNumbered("rc1", "2");
    assert "rc1" + "." + "2" == "rc1.2";
    assert DigitsValue("2") == 2;
    assert !EndsWith("rc1", '-');
  }

  /** An all-digit tag has the empty name, so it is a null tag although it has a number. */
  lemma ParseAllDigits(d: string)
    requires d != [] && AllDigits(d)
    ensures Parse(Some(d)) == PreReleaseTag(Some(""), Some(DigitsValue(d))) && Parse(Some(d)).IsNull()
  {
    assert '\n' !in d by {
      forall i | 0 <= i < |d| ensures d[i] != '\n' { assert IsDigit(d[i]); }
    }
    SplitTagOfDigits(d);
  }

  /** A name ending in '-' makes the whole input the name. */
  lemma ParseExampleDash()
    ensures Parse(Some("alpha-.3")) == PreReleaseTag(Some("alpha-.3"), None)
  {
    assert '\n' !in "alpha-.3";
    SplitTagOfNumbered("alpha-", "3");
    assert "alpha-" + "." + "3" == "alpha-.3";
    assert EndsWith("alpha-", '-');
  }

  /** Parsing the "t" form gives back the tag, for a non-empty single-line name not ending in '-'. */
  lemma {:induction false} TagTextRoundTrip(t: PreReleaseTag)
    requires t.name.Some? && t.name.value != [] && '\n' !in t.name.value
    requires !EndsWith(t.name.value, '-')
    requires t.number.None? ==> !EndsWith(t.name.value, '.') && !IsDigit(t.name.value[|t.name.value| - 1])
    ensures TagText(t).Some? && Parse(TagText(t)) == t
  {
    var name := t.name.value;
    var s := TagText(t).value;
    assert '\n' !in s by {
      if t.number.Some? {
        var d := NatToString(t.number.value);
        assert s == name + "." + d;
        assert forall i :: 0 <= i < |d| ==> d[i] != '\n' by {
          forall i | 0 <= i < |d| ensures d[i] != '\n' { assert IsDigit(d[i]); }
        }
      }
    }
    var sp := SplitTag(s);
    match t.number
    case None =>
      assert s == name;
      SplitTagOfNameOnly(name);
    case Some(n) =>
      var d := NatToString(n);
      assert s == name + "." + d;
      SplitTagOfNumbered(name, d);
      NatToStringRoundTrip(n);
  }

  lemma SplitTagOfNameOnly(name: string)
    requires name != [] && !EndsWith(name, '.') && !IsDigit(name[|name| - 1])
    ensures SplitTag(name) == TagSplit(name, [])
  {
    assert TrailingDigitCount(name) == 0;
  }

  /** The lazy name group takes nothing from an all-digit line. */
  lemma SplitTagOfDigits(d: string)
    requires AllDigits(d)
    ensures SplitTag(d) == TagSplit([], d)
  {
    var sp := SplitTag(d);
    assert d[0..] == d;
    if d != [] {
      assert IsDigit(d[0]);
    }
  }

  lemma SplitTagOfNumbered(name: string, d: string)
    requires d != [] && AllDigits(d)
    ensures SplitTag(name + "." + d) == TagSplit(name, d)
  {
    var s := name + "." + d;
    var sp := SplitTag(s);
    assert s[|name|..] == "." + d;
    forall j | 0 <= j < |name| ensures !TailMatches(s[j..]) {
      var u := s[j..];
      assert u[|name| - j] == '.';
      assert u != [] && u[0] == '.' ==> u[1..][|name| - j - 1] == '.';
    }
  }

  lemma SplitTagOfUndotted(name: string, d: string)
    requires d != [] && AllDigits(d)
    requires name != [] && name[|name| - 1] != '.' && !IsDigit(name[|name| - 1])
    ensures SplitTag(name + d) == TagSplit(name, d)
  {
    var s := name + d;
    assert s[|name|..] == d;
    forall j | 0 <= j < |name| ensures !TailMatches(s[j..]) {
      var u := s[j..];
      assert u[|name| - 1 - j] == name[|name| - 1];
      assert u != [] && u[0] == '.' ==> |name| - 1 - j > 0 && u[1..][|name| - 2 - j] == name[|name| - 1];
    }
  }
}
