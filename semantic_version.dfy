/**
 * A semantic version: major, minor and patch numbers, a pre-release tag and build
 * metadata. Parsing hand-codes the pattern
 * `^(?<Major>\d+)(\.(?<Minor>\d+))(\.(?<Patch>\d+))?(\.(?<FourthPart>\d+))?(-(?<Tag>[^\+]*))?(\+(?<BuildMetadata>.*))?$`
 * behind a tag prefix; equality and hashing go through the comparer.
 */
module SemanticVersions {
  import opened Wrappers
  import opened Text
  import opened Hashes
  import T = PreReleaseTags
  import B = BuildMetadatas

  /** The tag and the metadata are never null: every constructor substitutes empty ones. */
  datatype SemanticVersion = SemanticVersion(major: nat, minor: nat, patch: nat, tag: T.PreReleaseTag, meta: B.BuildMetadata)

  /** `new SemanticVersion(major, minor, patch)`. */
  function New(major: nat, minor: nat, patch: nat): SemanticVersion
  {
    SemanticVersion(major, minor, patch, T.NullTag, B.Default())
  }

  /** `new SemanticVersion(major, minor, patch, preReleaseTag, buildMetadata)`. */
  function Create(major: nat, minor: nat, patch: nat, tag: Option<T.PreReleaseTag>, meta: Option<B.BuildMetadata>): SemanticVersion
  {
    SemanticVersion(major, minor, patch, tag.GetOr(T.NullTag), meta.GetOr(B.Default()))
  }

  /** `new SemanticVersion(semanticVersion)`: the tag is copied as is, the metadata through its copy constructor. */
  function Copy(v: SemanticVersion): SemanticVersion
  {
    SemanticVersion(v.major, v.minor, v.patch, v.tag, B.Copy(v.meta))
  }

  /** `SemanticVersion.Empty`: 0.0.0 with no tag and no metadata. */
  function Empty(): SemanticVersion
  {
    New(0, 0, 0)
  }

  // ---------------------------------------------------------------------------
  // Equality and hashing: `SemanticVersionComarer`

  /** `SemanticVersionComparation`; an enum variable may also hold an undefined value. */
  datatype Comparation = Full | MajorMinorPatch | Undefined(value: int)

  /** `SemanticVersionComarer.Default` compares in the `Full` mode. */
  const DefaultComparation: Comparation := Full

  predicate SameCore(a: SemanticVersion, b: SemanticVersion)
  {
    a.major == b.major && a.minor == b.minor && a.patch == b.patch
  }

  /** The `Full` comparison: numbers, the tags by `==` and the metadata by `==`. */
  predicate FullEqual(a: SemanticVersion, b: SemanticVersion)
  {
    SameCore(a, b) && T.OperatorEquals(Some(a.tag), Some(b.tag)) && B.OperatorEquals(Some(a.meta), Some(b.meta))
  }

  /**
   * `SemanticVersionComarer.Equals(this, that)`. `sameObject` says whether the two
   * arguments are the same reference, which the comparer tests before the fields.
   */
  function ComparerEquals(mode: Comparation, a: Option<SemanticVersion>, b: Option<SemanticVersion>,
                          sameObject: bool): (r: Result<bool>)
    requires sameObject ==> a == b
    ensures b.None? ==> r == Ok(false)
    ensures r.Err? <==> b.Some? && !sameObject && (mode.Undefined? || a.None?)
    ensures r.Err? ==> r.error == (if mode.Undefined? then
      InvalidOperationException("SemanticVersionComparation: " + IntToString(mode.value) + " is not supported.")
      else NullReferenceException)
    ensures r == Ok(true) && !sameObject ==> a.Some? && b.Some? && SameCore(a.value, b.value)
    ensures r == Ok(true) && !sameObject && mode.Full? ==> FullEqual(a.value, b.value)
  {
    if b.None? then Ok(false)
    else if sameObject then Ok(true)
    else
      match mode
      case MajorMinorPatch => if a.None? then Err(NullReferenceException) else Ok(SameCore(a.value, b.value))
      case Full => if a.None? then Err(NullReferenceException) else Ok(FullEqual(a.value, b.value))
      case Undefined(n) =>
        Err(InvalidOperationException("SemanticVersionComparation: " + IntToString(n) + " is not supported."))
  }

  /** The reference shortcut never changes an answer the fields would give. */
  lemma SameObjectShortcutIsSound(mode: Comparation, a: SemanticVersion)
    requires !mode.Undefined?
    ensures ComparerEquals(mode, Some(a), Some(a), true) == ComparerEquals(mode, Some(a), Some(a), false) == Ok(true)
  {
  }

  /** Versions equal in the `Full` mode are equal in the `MajorMinorPatch` mode. */
  lemma FullImpliesMajorMinorPatch(a: Option<SemanticVersion>, b: Option<SemanticVersion>, sameObject: bool)
    requires sameObject ==> a == b
    requires ComparerEquals(Full, a, b, sameObject) == Ok(true)
    ensures ComparerEquals(MajorMinorPatch, a, b, sameObject) == Ok(true)
  {
  }

  /** `FullEqual` is symmetric. */
  lemma FullEqualSymmetric(a: SemanticVersion, b: SemanticVersion)
    requires FullEqual(a, b)
    ensures FullEqual(b, a)
  {
  }

  /** `SemanticVersionComarer.GetHashCode(version)`. */
  function HashCode(mode: Comparation, v: SemanticVersion): bv32
  {
    var h := Mix(Mix(IntHash(v.major), IntHash(v.minor)), IntHash(v.patch));
    if mode.Full? then Mix(Mix(h, T.HashCode(v.tag)), B.HashCode(v.meta)) else h
  }

  /** Each mode's hash agrees with its equality. */
  lemma EqualImpliesEqualHashCode(mode: Comparation, a: SemanticVersion, b: SemanticVersion)
    requires ComparerEquals(mode, Some(a), Some(b), false) == Ok(true)
    ensures HashCode(mode, a) == HashCode(mode, b)
  {
    if mode.Full? {
      B.EqualsImpliesEqualHashCode(a.meta, b.meta);
      T.EqualsImpliesEqualHashCode(a.tag, b.tag);
    }
  }

  /** `SemanticVersion.Equals(other)`: the default comparer, which never fails on a non-null receiver. */
  function Equals(v: SemanticVersion, other: Option<SemanticVersion>): (r: bool)
    ensures Ok(r) == ComparerEquals(DefaultComparation, Some(v), other, false)
    ensures r <==> other.Some? && FullEqual(v, other.value)
  {
    other.Some? && FullEqual(v, other.value)
  }

  /** `IsEmpty()`: equal to 0.0.0 with a null tag and metadata without count, branch or sha. */
  predicate IsEmpty(v: SemanticVersion)
  {
    Equals(v, Some(Empty()))
  }

  lemma IsEmptyMeans(v: SemanticVersion)
    ensures IsEmpty(v) <==> (v.major == 0 && v.minor == 0 && v.patch == 0 && v.tag == T.NullTag &&
                             v.meta.commitsSinceTag.None? && v.meta.branch.None? && v.meta.sha.None?)
  {
  }

  /** `static bool operator ==`: null equals only null. */
  predicate OperatorEquals(v1: Option<SemanticVersion>, v2: Option<SemanticVersion>)
  {
    if v1.None? then v2.None? else Equals(v1.value, v2)
  }

  lemma OperatorEqualsSymmetric(v1: Option<SemanticVersion>, v2: Option<SemanticVersion>)
    ensures OperatorEquals(v1, v2) <==> OperatorEquals(v2, v1)
  {
  }

  // ---------------------------------------------------------------------------
  // Ordering

  function CompareNat(a: nat, b: nat): int
  {
    if a > b then 1 else if a < b then -1 else 0
  }

  /** `CompareTo(value)`: null sorts first; then major, minor, patch; then the tags. */
  function CompareTo(v: SemanticVersion, other: Option<SemanticVersion>): (r: int)
    ensures r == -1 || r == 0 || r == 1
  {
    if other.None? then 1
    else
      var w := other.value;
      if v.major != w.major then CompareNat(v.major, w.major)
      else if v.minor != w.minor then CompareNat(v.minor, w.minor)
      else if v.patch != w.patch then CompareNat(v.patch, w.patch)
      else if !T.OperatorEquals(Some(v.tag), Some(w.tag)) then (if T.Greater(v.tag, w.tag) then 1 else -1)
      else 0
  }

  /** Zero exactly for the same numbers and the same tag; the metadata plays no part. */
  lemma CompareToZero(a: SemanticVersion, b: SemanticVersion)
    ensures CompareTo(a, Some(b)) == 0 <==> SameCore(a, b) && a.tag == b.tag
  {
  }

  /** Versions with different numbers are ordered by major, then minor, then patch. */
  lemma CompareToNumbers(a: SemanticVersion, b: SemanticVersion)
    requires !SameCore(a, b)
    ensures CompareTo(a, Some(b)) == 1 <==>
      a.major > b.major || (a.major == b.major && (a.minor > b.minor || (a.minor == b.minor && a.patch > b.patch)))
  {
  }

  /** With equal numbers and tags that the tag order tells apart, the tag order decides. */
  lemma CompareToTags(a: SemanticVersion, b: SemanticVersion)
    requires SameCore(a, b) && T.CompareTo(a.tag, b.tag) != 0
    ensures CompareTo(a, Some(b)) == T.CompareTo(a.tag, b.tag)
  {
    T.CompareToIsSign(a.tag, b.tag);
    T.CompareToZero(a.tag, b.tag);
  }

  /**
   * Swapping the arguments flips the sign, unless the tags differ only in the case
   * of their names: the tag order then says 0 and both directions answer -1.
   */
  lemma CompareToAntisymmetric(a: SemanticVersion, b: SemanticVersion)
    requires a.tag == b.tag || T.CompareTo(a.tag, b.tag) != 0
    ensures CompareTo(a, Some(b)) == -CompareTo(b, Some(a))
  {
    if SameCore(a, b) && a.tag != b.tag {
      T.CompareToAntisymmetric(a.tag, b.tag);
      CompareToTags(a, b);
      CompareToTags(b, a);
    }
  }

  /** Numbers ordered lexicographically: major, then minor, then patch. */
  predicate CoreBelow(a: SemanticVersion, b: SemanticVersion)
  {
    a.major < b.major || (a.major == b.major && (a.minor < b.minor || (a.minor == b.minor && a.patch < b.patch)))
  }

  /** "Not above" means smaller numbers, or the same numbers and a tag that is not above. */
  lemma NotAboveMeans(a: SemanticVersion, b: SemanticVersion)
    ensures CompareTo(a, Some(b)) <= 0 <==> CoreBelow(a, b) || (SameCore(a, b) && T.CompareTo(a.tag, b.tag) <= 0)
  {
    if SameCore(a, b) && a.tag == b.tag {
      T.CompareToZero(a.tag, b.tag);
    }
  }

  /** `a > b` implies `b < a`, whatever the tags: a case-only pair is never `>` either way. */
  lemma CompareToAsymmetric(a: SemanticVersion, b: SemanticVersion)
    requires CompareTo(a, Some(b)) == 1
    ensures CompareTo(b, Some(a)) == -1
  {
    T.CompareToAntisymmetric(a.tag, b.tag);
  }

  /** "Not above" is transitive, with no condition on the tags. */
  lemma CompareToTransitive(a: SemanticVersion, b: SemanticVersion, c: SemanticVersion)
    requires CompareTo(a, Some(b)) <= 0 && CompareTo(b, Some(c)) <= 0
    ensures CompareTo(a, Some(c)) <= 0
  {
    NotAboveMeans(a, b);
    NotAboveMeans(b, c);
    NotAboveMeans(a, c);
    if SameCore(a, b) && SameCore(b, c) {
      T.CompareToTransitive(a.tag, b.tag, c.tag);
    }
  }

  /** 1.0.0-Beta and 1.0.0-beta: each compares below the other. */
  lemma CompareToCaseOnlyTags()
    ensures var a, b := New(1, 0, 0).(tag := T.PreReleaseTag(Some("Beta"), None)),
                        New(1, 0, 0).(tag := T.PreReleaseTag(Some("beta"), None));
      CompareTo(a, Some(b)) == -1 && CompareTo(b, Some(a)) == -1
  {
    T.CaseOnlyDifference(None);
  }

  /** The operators `>`, `>=`, `<=`, `<`: null operands throw, otherwise the sign of `CompareTo`. */
  datatype Relation = GreaterThan | GreaterOrEqual | LessOrEqual | LessThan

  function Operator(rel: Relation, v1: Option<SemanticVersion>, v2: Option<SemanticVersion>): (r: Result<bool>)
    ensures v1.None? ==> r == Err(ArgumentNullException("v1"))
    ensures v1.Some? && v2.None? ==> r == Err(ArgumentNullException("v2"))
    ensures v1.Some? && v2.Some? ==> r.Ok?
  {
    if v1.None? then Err(ArgumentNullException("v1"))
    else if v2.None? then Err(ArgumentNullException("v2"))
    else
      var c := CompareTo(v1.value, v2);
      Ok(match rel
         case GreaterThan => c > 0
         case GreaterOrEqual => c >= 0
         case LessOrEqual => c <= 0
         case LessThan => c < 0)
  }

  /** `a > b` and `b < a` agree when the tags are not a case-only pair. */
  lemma GreaterIsConverseOfLess(a: SemanticVersion, b: SemanticVersion)
    requires a.tag == b.tag || T.CompareTo(a.tag, b.tag) != 0
    ensures Operator(GreaterThan, Some(a), Some(b)) == Operator(LessThan, Some(b), Some(a))
  {
    CompareToAntisymmetric(a, b);
  }

  // ---------------------------------------------------------------------------
  // Formatting

  /** "j": `{Major}.{Minor}.{Patch}`. */
  function CoreText(v: SemanticVersion): string
  {
    NatToString(v.major) + "." + NatToString(v.minor) + "." + NatToString(v.patch)
  }

  /** "s" and "t": the core, then `-` and the tag unless the tag is null. */
  function TaggedText(v: SemanticVersion): string
  {
    if v.tag.IsNull() then CoreText(v) else CoreText(v) + "-" + T.TagText(v.tag).GetOr([])
  }

  /** `s` or `s + "+" + m`, leaving out an empty or null metadata text. */
  function WithMetadata(s: string, m: Option<string>): string
  {
    if B.NullOrEmpty(m) then s else s + "+" + m.value
  }

  /**
   * `ToString(format)` without a format provider: null or empty means "s"; "f" adds
   * the count, "i" the full metadata; any other format throws.
   */
  function ToString(v: SemanticVersion, format: Option<string>): (r: Result<string>)
    ensures r.Err? <==> !B.NullOrEmpty(format) && format.value !in {"j", "s", "t", "f", "i"}
    ensures r.Err? ==> r.error == ArgumentException("Unrecognised format '" + format.value + "'")
    ensures r.Ok? ==> CoreText(v) <= r.value
    ensures r.Ok? && format != Some("j") ==> TaggedText(v) <= r.value
  {
    var f := if B.NullOrEmpty(format) then "s" else format.value;
    TaggedTextExtendsCore(v);
    if f == "j" then Ok(CoreText(v))
    else if f == "s" || f == "t" then Ok(TaggedText(v))
    else if f == "f" then
      WithMetadataExtends(TaggedText(v), B.ToStringDefault(v.meta));
      Ok(WithMetadata(TaggedText(v), B.ToStringDefault(v.meta)))
    else if f == "i" then
      match B.PublicToString(v.meta, Some("f"))
      case Err(e) => Err(e)
      case Ok(m) =>
        WithMetadataExtends(TaggedText(v), m);
        Ok(WithMetadata(TaggedText(v), m))
    else Err(ArgumentException("Unrecognised format '" + f + "'"))
  }

  lemma TaggedTextExtendsCore(v: SemanticVersion)
    ensures CoreText(v) <= TaggedText(v)
  {
    if !v.tag.IsNull() { PrefixOfAppend(CoreText(v), "-" + T.TagText(v.tag).GetOr([])); }
  }

  lemma WithMetadataExtends(s: string, m: Option<string>)
    ensures s <= WithMetadata(s, m)
  {
    if !B.NullOrEmpty(m) { PrefixOfAppend(s, "+" + m.value); }
  }

  lemma PrefixOfAppend(s: string, t: string)
    ensures s <= s + t
  {
    assert (s + t)[..|s|] == s;
  }

  /** "i" appends the trimmed "f" text of the metadata. */
  lemma InformationalFormatText(v: SemanticVersion)
    ensures ToString(v, Some("i")) == Ok(WithMetadata(TaggedText(v), Some(TrimStart(B.FullText(v.meta), '.'))))
  {
    B.FullFormat(v.meta);
    assert !B.NullOrEmpty(Some("i"));
    assert "i" != "j" && "i" != "s" && "i" != "t" && "i" != "f";
  }

  // ---------------------------------------------------------------------------
  // Parsing

  /** The groups of the version pattern: the numbers as digit strings, and the tag and metadata text. */
  datatype VersionGroups = VersionGroups(major: string, minor: string, patch: Option<string>, fourth: Option<string>,
                                         tag: Option<string>, meta: Option<string>)

  function Group(lead: char, g: Option<string>): string
  {
    if g.None? then [] else [lead] + g.value
  }

  /** The text a match covers, from its groups. */
  function GroupsText(g: VersionGroups): string
  {
    g.major + "." + g.minor + Group('.', g.patch) + Group('.', g.fourth) + Group('-', g.tag) + Group('+', g.meta)
  }

  predicate IsNumber(d: string)
  {
    d != [] && AllDigits(d)
  }

  /** Groups a match can produce: a fourth part only after a patch, a tag without '+'. */
  predicate Canonical(g: VersionGroups)
  {
    IsNumber(g.major) && IsNumber(g.minor) &&
    (g.patch.Some? ==> IsNumber(g.patch.value)) &&
    (g.fourth.Some? ==> g.patch.Some? && IsNumber(g.fourth.value)) &&
    (g.tag.Some? ==> '+' !in g.tag.value)
  }

  /** `\.\d+` at `i`: the position after it. */
  function DotNumber(s: string, i: nat): (r: Option<nat>)
    requires i <= |s|
    ensures r.Some? ==> i + 2 <= r.value <= |s| && s[i] == '.' && IsNumber(s[i + 1..r.value])
  {
    if i < |s| && s[i] == '.' && DigitRun(s, i + 1) > 0 then
      var e := i + 1 + DigitRun(s, i + 1);
      SliceDigits(s, i + 1, e);
      Some(e)
    else None
  }

  /** An optional group: the text it captured and the position after it. */
  datatype Step = Step(group: Option<string>, end: nat)

  /** `(\.(?<X>\d+))?` at `i`. */
  function OptionalNumber(s: string, i: nat): (r: Step)
    requires i <= |s|
    ensures i <= r.end <= |s|
    ensures r.group == (if r.end != i then Some(s[i + 1..r.end]) else None)
    ensures r.end != i ==> s[i] == '.' && IsNumber(s[i + 1..r.end])
  {
    match DotNumber(s, i)
    case None => Step(None, i)
    case Some(e) => Step(Some(s[i + 1..e]), e)
  }

  /** `(-(?<Tag>[^\+]*))?` at `i`. */
  function OptionalTag(s: string, i: nat): (r: Step)
    requires i <= |s|
    ensures i <= r.end <= |s|
    ensures r.group == (if r.end != i then Some(s[i + 1..r.end]) else None)
    ensures r.end != i ==> s[i] == '-' && forall k :: i + 1 <= k < r.end ==> s[k] != '+'
    ensures r.end < |s| ==> s[r.end] == '+' || (r.end == i && s[i] != '-')
  {
    if i < |s| && s[i] == '-' then
      RunWithoutExcludes(s, i + 1, '+');
      var e := i + 1 + RunWithout(s, i + 1, '+');
      Step(Some(s[i + 1..e]), e)
    else Step(None, i)
  }

  /** `(\+(?<BuildMetadata>.*))?` at `i`, on a single line. */
  function OptionalMeta(s: string, i: nat): (r: Step)
    requires i <= |s|
    ensures r.group.Some? <==> i < |s| && s[i] == '+'
    ensures r.group.Some? ==> r.group.value == s[i + 1..] && r.end == |s|
    ensures r.group.None? ==> r.end == i
  {
    if i < |s| && s[i] == '+' then Step(Some(s[i + 1..]), |s|) else Step(None, i)
  }

  /** The version pattern on a single line of text. */
  function MatchVersion(v: string): Option<VersionGroups>
    requires '\n' !in v
  {
    var n := DigitRun(v, 0);
    var e1 := DotNumber(v, n);
    if n == 0 || e1.None? then None
    else
      var patch := OptionalNumber(v, e1.value);
      var fourth := OptionalNumber(v, patch.end);
      var tag := OptionalTag(v, fourth.end);
      var meta := OptionalMeta(v, tag.end);
      if meta.end != |v| then None
      else Some(VersionGroups(v[..n], v[n + 1..e1.value], patch.group, fourth.group, tag.group, meta.group))
  }

  /** A match covers the whole text, and its groups are ones the pattern can produce. */
  lemma MatchVersionSound(v: string)
    requires '\n' !in v
    ensures var r := MatchVersion(v); r.Some? ==> Canonical(r.value) && GroupsText(r.value) == v
  {
    var n := DigitRun(v, 0);
    var e1 := DotNumber(v, n);
    if n != 0 && e1.Some? {
      var p1 := e1.value;
      var patch := OptionalNumber(v, p1);
      var fourth := OptionalNumber(v, patch.end);
      var tag := OptionalTag(v, fourth.end);
      var meta := OptionalMeta(v, tag.end);
      if meta.end == |v| {
        var g := VersionGroups(v[..n], v[n + 1..p1], patch.group, fourth.group, tag.group, meta.group);
        assert MatchVersion(v) == Some(g);
        StepsSound(v, n, p1, patch, fourth, tag, meta, g);
      }
    }
  }

  /** The optional groups of a match, read back as the text before each position. */
  lemma StepsSound(v: string, n: nat, p1: nat, patch: Step, fourth: Step, tag: Step, meta: Step, g: VersionGroups)
    requires '\n' !in v && n == DigitRun(v, 0) && n != 0
    requires DotNumber(v, n) == Some(p1)
    requires patch == OptionalNumber(v, p1) && fourth == OptionalNumber(v, patch.end)
    requires tag == OptionalTag(v, fourth.end) && meta == OptionalMeta(v, tag.end) && meta.end == |v|
    requires g == VersionGroups(v[..n], v[n + 1..p1], patch.group, fourth.group, tag.group, meta.group)
    ensures Canonical(g) && GroupsText(g) == v
  {
    var x1 := CoreGroupsText(v, n, p1);
    var x2 := NumberGroupText(v, p1, patch, x1);
    var x3 := NumberGroupText(v, patch.end, fourth, x2);
    var x4 := TagGroupText(v, fourth.end, tag, x3);
    MetaGroupText(v, tag.end, meta, x4);
    assert patch.end == p1 ==> fourth == patch;
  }

  /** `^\d+\.\d+`: the text up to `p1` is the major and minor groups joined by '.'. */
  lemma CoreGroupsText(v: string, n: nat, p1: nat) returns (x: string)
    requires n == DigitRun(v, 0) && n != 0 && DotNumber(v, n) == Some(p1)
    ensures x == v[..n] + "." + v[n + 1..p1] && v[..p1] == x
    ensures IsNumber(v[..n]) && IsNumber(v[n + 1..p1])
  {
    x := v[..n] + "." + v[n + 1..p1];
    SliceDigits(v, 0, n);
    assert v[..n] == v[0..n];
    assert v[..p1] == v[..n] + v[n..p1];
    assert v[n..p1] == [v[n]] + v[n + 1..p1];
  }

  lemma NumberGroupText(v: string, i: nat, st: Step, x: string) returns (y: string)
    requires i <= |v| && st == OptionalNumber(v, i) && v[..i] == x
    ensures y == x + Group('.', st.group) && v[..st.end] == y && i <= st.end
    ensures st.group.Some? ==> IsNumber(st.group.value)
  {
    y := x + Group('.', st.group);
    PrefixStep(v, i, st.end, x, '.', st.group);
  }

  lemma TagGroupText(v: string, i: nat, st: Step, x: string) returns (y: string)
    requires i <= |v| && st == OptionalTag(v, i) && v[..i] == x
    ensures y == x + Group('-', st.group) && v[..st.end] == y && i <= st.end
    ensures st.group.Some? ==> '+' !in st.group.value
  {
    y := x + Group('-', st.group);
    PrefixStep(v, i, st.end, x, '-', st.group);
    if st.group.Some? {
      forall k | 0 <= k < |st.group.value| ensures st.group.value[k] != '+' {
        assert st.group.value[k] == v[i + 1 + k];
      }
    }
  }

  lemma MetaGroupText(v: string, i: nat, st: Step, x: string)
    requires i <= |v| && st == OptionalMeta(v, i) && v[..i] == x && st.end == |v|
    ensures v == x + Group('+', st.group)
  {
    if st.group.Some? {
      assert v[i + 1..] == v[i + 1..|v|];
    }
    PrefixStep(v, i, |v|, x, '+', st.group);
    assert v[..|v|] == v;
  }

  lemma PrefixStep(v: string, i: nat, j: nat, x: string, lead: char, g: Option<string>)
    requires i <= j <= |v| && v[..i] == x
    requires g == (if j != i then Some(v[i + 1..j]) else None) && (j != i ==> v[i] == lead)
    ensures v[..j] == x + Group(lead, g)
  {
    GroupAt(v, i, j, lead, g);
    assert v[..j] == v[..i] + v[i..j];
  }

  lemma GroupAt(v: string, i: nat, j: nat, lead: char, g: Option<string>)
    requires i <= j <= |v|
    requires g == (if j != i then Some(v[i + 1..j]) else None) && (j != i ==> v[i] == lead)
    ensures v[i..j] == Group(lead, g)
  {
    if j != i {
      assert v[i..j] == [v[i]] + v[i + 1..j];
    }
  }

  /** A single line: no '\n', or one '\n' at the very end. */
  predicate SingleLine(s: string)
  {
    '\n' !in s || (s[|s| - 1] == '\n' && '\n' !in s[..|s| - 1])
  }

  /** What `(?<version>.*)$` captures of a single line: the text without its final '\n'. */
  function LineBody(s: string): (r: string)
    requires SingleLine(s)
    ensures '\n' !in r
    ensures r == s || r + "\n" == s
  {
    if s != [] && s[|s| - 1] == '\n' then
      assert s[..|s| - 1] + "\n" == s;
      s[..|s| - 1]
    else s
  }

  /**
   * The `version` group of `^(P)?(?<version>.*)$`, where `P` is a list of literal
   * alternatives tried in order before the group is skipped; `None` when no
   * alternative leaves a single line.
   */
  function StripPrefix(version: string, prefixes: seq<string>): (r: Option<string>)
    ensures r.Some? ==> '\n' !in r.value
    ensures prefixes == [] ==> (r.Some? <==> SingleLine(version)) && (r.Some? ==> r.value == LineBody(version))
    decreases |prefixes|
  {
    if prefixes == [] then (if SingleLine(version) then Some(LineBody(version)) else None)
    else
      var p := prefixes[0];
      if p <= version && SingleLine(version[|p|..]) then Some(LineBody(version[|p|..]))
      else StripPrefix(version, prefixes[1..])
  }

  /**
   * `TryParse(version, tagPrefixRegex)`: the metadata group is parsed, a fourth part
   * becomes the commit count when the metadata has none, and the tag group is parsed.
   */
  function TryParse(version: string, prefixes: seq<string>): (r: Option<SemanticVersion>)
  {
    match StripPrefix(version, prefixes)
    case None => None
    case Some(v) =>
      match MatchVersion(v)
      case None => None
      case Some(g) => Some(FromGroups(g))
  }

  /** The version a match describes. */
  function FromGroups(g: VersionGroups): (r: SemanticVersion)
    requires Canonical(g)
    ensures r.major == DigitsValue(g.major) && r.minor == DigitsValue(g.minor)
    ensures r.patch == if g.patch.Some? then DigitsValue(g.patch.value) else 0
    ensures r.tag == T.Parse(Some(g.tag.GetOr([])))
    ensures var m := B.Parse(Some(g.meta.GetOr([])));
      if g.fourth.Some? && m.commitsSinceTag.None? then
        r.meta.commitsSinceTag == Some(DigitsValue(g.fourth.value)) &&
        r.meta.commitsSinceVersionSource == DigitsValue(g.fourth.value) &&
        r.meta.branch == m.branch && r.meta.sha == m.sha && r.meta.otherMetaData == m.otherMetaData &&
        r.meta.commitDate == m.commitDate
      else r.meta == m
  {
    var m := B.Parse(Some(g.meta.GetOr([])));
    var meta := if g.fourth.Some? && m.commitsSinceTag.None? then
        B.Create(Some(DigitsValue(g.fourth.value)), m.branch, m.sha, m.commitDate, m.otherMetaData)
      else m;
    SemanticVersion(DigitsValue(g.major), DigitsValue(g.minor),
                    if g.patch.Some? then DigitsValue(g.patch.value) else 0,
                    T.Parse(Some(g.tag.GetOr([]))), meta)
  }

  /** `Parse(version, tagPrefixRegex)`: `TryParse`, throwing when it fails. */
  function Parse(version: string, prefixes: seq<string>): (r: Result<SemanticVersion>)
    ensures r.Ok? <==> TryParse(version, prefixes).Some?
    ensures r.Ok? ==> r.value == TryParse(version, prefixes).value
    ensures r.Err? ==> r.error == SemanticVersionException("Failed to parse " + version + " into a Semantic Version")
  {
    match TryParse(version, prefixes)
    case None => Err(SemanticVersionException("Failed to parse " + version + " into a Semantic Version"))
    case Some(v) => Ok(v)
  }
}

/** The version grammar is unambiguous, and the informational text parses back to the version. */
module SemanticVersionRoundTrip {
  import opened Wrappers
  import opened Text
  import T = PreReleaseTags
  import B = BuildMetadatas
  import BR = BuildMetadataRoundTrip
  import opened SemanticVersions

  lemma DotNumberOf(s: string, i: nat, d: string, rest: string)
    requires i <= |s| && s[i..] == "." + d + rest
    requires IsNumber(d) && (rest == [] || !IsDigit(rest[0]))
    ensures DotNumber(s, i) == Some(i + 1 + |d|)
    ensures s[i + 1..i + 1 + |d|] == d && s[i + 1 + |d|..] == rest
  {
    assert s[i] == '.';
    forall k | i + 1 <= k < i + 1 + |d| ensures IsDigit(s[k]) {
      assert s[k] == s[i..][k - i] == d[k - i - 1];
    }
    if i + 1 + |d| < |s| {
      assert s[i + 1 + |d|] == s[i..][1 + |d|] == rest[0];
    }
    DigitRunOf(s, i + 1, |d|);
    SuffixSlices(s, i, "." + d + rest, 1, |d|);
  }

  /** The parts of a suffix `[lead] + d + rest` of `s`, as slices of `s`. */
  lemma SuffixSlices(s: string, i: nat, t: string, a: nat, n: nat)
    requires i <= |s| && s[i..] == t && a + n <= |t|
    ensures s[i + a..i + a + n] == t[a..a + n] && s[i + a + n..] == t[a + n..]
  {
  }

  lemma DotNumberNone(s: string, i: nat)
    requires i <= |s| && (i == |s| || s[i] != '.')
    ensures DotNumber(s, i).None?
  {
  }

  /** The group text after a number starts with none of the digits. */
  lemma GroupAfterNumber(g: VersionGroups, lead: char, x: Option<string>, rest: string)
    requires lead != '.' || x.None?
    requires lead == '.' || lead == '-' || lead == '+'
    requires rest == [] || rest[0] == '-' || rest[0] == '+'
    ensures var r := Group(lead, x) + rest; r == [] || r[0] == '.' || r[0] == '-' || r[0] == '+'
  {
  }

  // The text after the minor number, after the patch, after the fourth part and after the tag.
  function Rest1(g: VersionGroups): string { Group('.', g.patch) + Rest2(g) }
  function Rest2(g: VersionGroups): string { Group('.', g.fourth) + Rest3(g) }
  function Rest3(g: VersionGroups): string { Group('-', g.tag) + Rest4(g) }
  function Rest4(g: VersionGroups): string { Group('+', g.meta) }

  lemma GroupsTextSplit(g: VersionGroups)
    ensures GroupsText(g) == g.major + "." + g.minor + Rest1(g)
  {
    var a, p, f, t, m := g.major + "." + g.minor, Group('.', g.patch), Group('.', g.fourth), Group('-', g.tag), Group('+', g.meta);
    calc {
      GroupsText(g);
      a + p + f + t + m;
      { assert a + p + f + t + m == a + p + f + (t + m); }
      a + p + f + Rest3(g);
      { assert a + p + f + Rest3(g) == a + p + (f + Rest3(g)); }
      a + p + Rest2(g);
      { assert a + p + Rest2(g) == a + (p + Rest2(g)); }
      a + Rest1(g);
    }
  }

  lemma NumbersOf(s: string, x: string, y: string, r: string)
    requires IsNumber(x) && IsNumber(y) && s == x + ("." + y + r)
    requires r == [] || r[0] == '.' || r[0] == '-' || r[0] == '+'
    ensures var n := |x|;
      DigitRun(s, 0) == n && DotNumber(s, n) == Some(n + 1 + |y|) &&
      s[..n] == x && s[n + 1..n + 1 + |y|] == y && s[n + 1 + |y|..] == r
  {
    var n := |x|;
    assert s[..n] == x && s[n..] == "." + y + r;
    assert s[n] == '.';
    forall k | 0 <= k < n ensures IsDigit(s[k]) { assert s[k] == x[k]; }
    DigitRunOf(s, 0, n);
    DotNumberOf(s, n, y, r);
  }

  /** What may follow a number: nothing, or a '.', '-' or '+'. */
  predicate StartsAfterNumber(r: string)
  {
    r == [] || r[0] == '.' || r[0] == '-' || r[0] == '+'
  }

  lemma RestStarts(g: VersionGroups)
    ensures StartsAfterNumber(Rest1(g)) && StartsAfterNumber(Rest2(g)) && StartsAfterNumber(Rest3(g))
    ensures Rest4(g) == [] || Rest4(g)[0] == '+'
    ensures g.fourth.None? ==> Rest3(g) == [] || Rest3(g)[0] == '-' || Rest3(g)[0] == '+'
    ensures Rest3(g) == [] || Rest3(g)[0] == '-' || Rest3(g)[0] == '+'
  {
    assert Rest4(g) == [] || Rest4(g)[0] == '+';
    assert Rest3(g) == [] || Rest3(g)[0] == '-' || Rest3(g)[0] == '+';
    assert StartsAfterNumber(Rest2(g));
  }

  /** The major and minor numbers of `g` end at `n` and `p1` in `s`, and the rest is `Rest1(g)`. */
  predicate MinorFound(s: string, g: VersionGroups, n: nat, p1: nat)
  {
    Canonical(g) && '\n' !in s && n != 0 && n + 1 <= p1 <= |s| &&
    DigitRun(s, 0) == n && DotNumber(s, n) == Some(p1) &&
    s[..n] == g.major && s[n + 1..p1] == g.minor && s[p1..] == Rest1(g)
  }

  lemma CompleteNumbers(s: string, g: VersionGroups) returns (n: nat, p1: nat)
    requires Canonical(g) && '\n' !in s && s == g.major + ("." + g.minor + Rest1(g))
    ensures MinorFound(s, g, n, p1)
  {
    RestStarts(g);
    NumbersOf(s, g.major, g.minor, Rest1(g));
    n, p1 := |g.major|, |g.major| + 1 + |g.minor|;
  }

  lemma CompletePatch(s: string, i: nat, g: VersionGroups) returns (j: nat)
    requires Canonical(g) && i <= |s| && s[i..] == Rest1(g)
    ensures j == i + |Group('.', g.patch)| && j <= |s|
    ensures OptionalNumber(s, i) == Step(g.patch, j)
    ensures s[j..] == Rest2(g)
  {
    j := i + |Group('.', g.patch)|;
    var r2 := Rest2(g);
    if g.patch.Some? {
      assert Rest1(g) == "." + g.patch.value + r2;
      assert r2 == [] || r2[0] == '.' || r2[0] == '-' || r2[0] == '+';
      DotNumberOf(s, i, g.patch.value, r2);
    } else {
      assert Rest1(g) == r2;
      assert r2 == [] || r2[0] == '-' || r2[0] == '+';
      DotNumberNone(s, i);
    }
  }

  lemma CompleteFourth(s: string, i: nat, g: VersionGroups) returns (j: nat)
    requires Canonical(g) && i <= |s| && s[i..] == Rest2(g)
    ensures j == i + |Group('.', g.fourth)| && j <= |s|
    ensures OptionalNumber(s, i) == Step(g.fourth, j)
    ensures s[j..] == Rest3(g)
  {
    j := i + |Group('.', g.fourth)|;
    var r3 := Rest3(g);
    if g.fourth.Some? {
      assert Rest2(g) == "." + g.fourth.value + r3;
      assert r3 == [] || r3[0] == '-' || r3[0] == '+';
      DotNumberOf(s, i, g.fourth.value, r3);
    } else {
      assert Rest2(g) == r3;
      assert r3 == [] || r3[0] == '-' || r3[0] == '+';
      DotNumberNone(s, i);
    }
  }

  lemma CompleteTag(s: string, i: nat, g: VersionGroups) returns (j: nat)
    requires Canonical(g) && i <= |s| && s[i..] == Rest3(g)
    ensures j == i + |Group('-', g.tag)| && j <= |s|
    ensures OptionalTag(s, i) == Step(g.tag, j)
    ensures s[j..] == Rest4(g)
  {
    j := i + |Group('-', g.tag)|;
    var r4 := Rest4(g);
    if g.tag.Some? {
      var t := g.tag.value;
      assert Rest3(g) == "-" + t + r4;
      assert s[i] == '-';
      SuffixSlices(s, i, Rest3(g), 1, |t|);
      forall k | i + 1 <= k < j ensures s[k] != '+' {
        assert s[k] == s[i + 1..j][k - i - 1];
      }
      if j < |s| { assert s[j] == r4[0]; }
      RunWithoutOf(s, i + 1, '+', |t|);
    } else {
      assert Rest3(g) == r4;
    }
  }

  lemma CompleteMeta(s: string, i: nat, g: VersionGroups)
    requires i <= |s| && s[i..] == Rest4(g)
    ensures OptionalMeta(s, i) == Step(g.meta, |s|)
  {
    if g.meta.Some? {
      assert s[i] == '+';
      assert s[i + 1..] == Rest4(g)[1..] == g.meta.value;
    }
  }

  /** The match, from what each step of the pattern finds. */
  lemma MatchFromSteps(s: string, g: VersionGroups, n: nat, p1: nat, p2: nat, p3: nat, p4: nat)
    requires '\n' !in s
    requires DigitRun(s, 0) == n && n != 0 && DotNumber(s, n) == Some(p1)
    requires s[..n] == g.major && s[n + 1..p1] == g.minor
    requires p1 <= p2 <= p3 <= p4 <= |s|
    requires OptionalNumber(s, p1) == Step(g.patch, p2)
    requires OptionalNumber(s, p2) == Step(g.fourth, p3)
    requires OptionalTag(s, p3) == Step(g.tag, p4)
    requires OptionalMeta(s, p4) == Step(g.meta, |s|)
    ensures MatchVersion(s) == Some(g)
  {
  }

  lemma MatchVersionComplete(g: VersionGroups)
    requires Canonical(g) && '\n' !in GroupsText(g)
    ensures MatchVersion(GroupsText(g)) == Some(g)
  {
    GroupsTextSplit(g);
    MatchOfSplitText(GroupsText(g), g);
  }

  lemma MatchOfSplitText(s: string, g: VersionGroups)
    requires Canonical(g) && '\n' !in s && s == g.major + ("." + g.minor + Rest1(g))
    ensures MatchVersion(s) == Some(g)
  {
    var n, p1 := CompleteNumbers(s, g);
    MatchAfterMinor(s, g, n, p1);
  }

  /** The match once the major and minor numbers are found. */
  lemma MatchAfterMinor(s: string, g: VersionGroups, n: nat, p1: nat)
    requires MinorFound(s, g, n, p1)
    ensures MatchVersion(s) == Some(g)
  {
    var p2 := CompletePatch(s, p1, g);
    var p3 := CompleteFourth(s, p2, g);
    MatchAfterFourth(s, g, n, p1, p2, p3);
  }

  /** The match once the optional patch and fourth numbers are found. */
  lemma MatchAfterFourth(s: string, g: VersionGroups, n: nat, p1: nat, p2: nat, p3: nat)
    requires Canonical(g) && '\n' !in s
    requires DigitRun(s, 0) == n && n != 0 && DotNumber(s, n) == Some(p1)
    requires s[..n] == g.major && s[n + 1..p1] == g.minor
    requires p1 <= p2 <= p3 <= |s|
    requires OptionalNumber(s, p1) == Step(g.patch, p2) && OptionalNumber(s, p2) == Step(g.fourth, p3)
    requires s[p3..] == Rest3(g)
    ensures MatchVersion(s) == Some(g)
  {
    var p4 := CompleteTag(s, p3, g);
    CompleteMeta(s, p4, g);
    MatchFromSteps(s, g, n, p1, p2, p3, p4);
  }

  // ---------------------------------------------------------------------------
  // The informational format parses back

  /** A tag whose "t" text parses back to it and stays inside the tag group. */
  predicate TagInvertible(t: T.PreReleaseTag)
  {
    t == T.NullTag ||
    (t.name.Some? && t.name.value != [] && '\n' !in t.name.value && '+' !in t.name.value &&
     !T.EndsWith(t.name.value, '-') &&
     (t.number.None? ==> !T.EndsWith(t.name.value, '.') && !IsDigit(t.name.value[|t.name.value| - 1])))
  }

  /** Versions whose "i" text parses back: an invertible tag, and metadata on one line that "f" renders unambiguously. */
  predicate InformationalInvertible(v: SemanticVersion)
  {
    TagInvertible(v.tag) && BR.FullFormatInvertible(v.meta) &&
    (v.meta.branch.Some? ==> '\n' !in v.meta.branch.value) &&
    (v.meta.sha.Some? ==> '\n' !in v.meta.sha.value) &&
    (v.meta.otherMetaData.Some? ==> '\n' !in v.meta.otherMetaData.value)
  }

  /** The tag group of the "i" text. */
  function TagGroup(t: T.PreReleaseTag): Option<string>
  {
    if t.IsNull() then None else Some(T.TagText(t).GetOr([]))
  }

  /** The metadata group of the "i" text. */
  function MetaGroup(m: B.BuildMetadata): Option<string>
  {
    var f := BR.TrimmedFullText(m);
    if f == [] then None else Some(f)
  }

  function InformationalGroups(v: SemanticVersion): VersionGroups
  {
    VersionGroups(NatToString(v.major), NatToString(v.minor), Some(NatToString(v.patch)), None,
                  TagGroup(v.tag), MetaGroup(v.meta))
  }

  lemma MetaTextSingleLine(m: B.BuildMetadata)
    requires m.branch.Some? ==> '\n' !in m.branch.value
    requires m.sha.Some? ==> '\n' !in m.sha.value
    requires m.otherMetaData.Some? ==> '\n' !in m.otherMetaData.value
    ensures '\n' !in BR.TrimmedFullText(m)
  {
    if m.commitsSinceTag.Some? {
      DigitsHaveNoNewline(NatToString(m.commitsSinceTag.value));
    }
    assert '\n' !in B.CountText(m);
    assert '\n' !in "Branch." && '\n' !in "Sha." && '\n' !in ".";
    assert '\n' !in BR.BranchText(m);
    assert '\n' !in BR.ShaText(m);
    assert '\n' !in BR.OtherText(m);
  }

  lemma TagTextInGroup(t: T.PreReleaseTag)
    requires TagInvertible(t) && !t.IsNull()
    ensures '\n' !in T.TagText(t).GetOr([]) && '+' !in T.TagText(t).GetOr([])
  {
    if t.number.Some? {
      DigitsHaveNoNewline(NatToString(t.number.value));
      assert T.TagText(t).GetOr([]) == t.name.value + "." + NatToString(t.number.value);
    }
  }

  lemma InformationalTextIsGroupsText(v: SemanticVersion)
    requires InformationalInvertible(v)
    ensures ToString(v, Some("i")) == Ok(GroupsText(InformationalGroups(v)))
    ensures Canonical(InformationalGroups(v)) && '\n' !in GroupsText(InformationalGroups(v))
  {
    InformationalText(v);
    TaggedTextIsGroupsText(v);
    InformationalGroupsSingleLine(v);
  }

  lemma InformationalText(v: SemanticVersion)
    requires BR.FullFormatInvertible(v.meta)
    ensures ToString(v, Some("i")) == Ok(TaggedText(v) + Group('+', MetaGroup(v.meta)))
  {
    BR.FullFormatText(v.meta);
    var f := BR.TrimmedFullText(v.meta);
    assert ToString(v, Some("i")) == Ok(WithMetadata(TaggedText(v), Some(f)));
    var t := TaggedText(v);
    if f != [] {
      assert MetaGroup(v.meta) == Some(f);
      PlusAppend(t, f);
    } else {
      assert MetaGroup(v.meta) == None;
      assert t + [] == t;
    }
  }

  /** Appending `+` and then a text is appending the `+` group. */
  lemma PlusAppend(t: string, f: string)
    ensures t + "+" + f == t + (['+'] + f)
  {
  }

  lemma TaggedTextIsGroupsText(v: SemanticVersion)
    ensures TaggedText(v) + Group('+', MetaGroup(v.meta)) == GroupsText(InformationalGroups(v))
  {
    var g := InformationalGroups(v);
    assert TaggedText(v) == CoreText(v) + Group('-', g.tag);
    assert GroupsText(g) == CoreText(v) + Group('-', g.tag) + Group('+', g.meta);
  }

  lemma InformationalGroupsSingleLine(v: SemanticVersion)
    requires InformationalInvertible(v)
    ensures Canonical(InformationalGroups(v)) && '\n' !in GroupsText(InformationalGroups(v))
  {
    var g := InformationalGroups(v);
    DigitsHaveNoNewline(g.major);
    DigitsHaveNoNewline(g.minor);
    DigitsHaveNoNewline(g.patch.value);
    MetaTextSingleLine(v.meta);
    if !v.tag.IsNull() {
      TagTextInGroup(v.tag);
    }
    GroupsTextSingleLine(g);
  }

  /** The text of the groups has no '\n' when no group has one. */
  lemma GroupsTextSingleLine(g: VersionGroups)
    requires '\n' !in g.major && '\n' !in g.minor
    requires g.patch.Some? ==> '\n' !in g.patch.value
    requires g.fourth.Some? ==> '\n' !in g.fourth.value
    requires g.tag.Some? ==> '\n' !in g.tag.value
    requires g.meta.Some? ==> '\n' !in g.meta.value
    ensures '\n' !in GroupsText(g)
  {
    var x1 := g.major + "." + g.minor;
    assert '\n' !in x1;
    var x2 := x1 + Group('.', g.patch);
    assert '\n' !in x2;
    var x3 := x2 + Group('.', g.fourth);
    assert '\n' !in x3;
    var x4 := x3 + Group('-', g.tag);
    assert '\n' !in x4;
    assert GroupsText(g) == x4 + Group('+', g.meta);
  }

  /**
   * `Parse(ToString("i"))` with no prefix gives a version equal to the original
   * under the `Full` comparer, for every version whose tag and metadata texts
   * cannot be misread.
   */
  lemma InformationalRoundTrip(v: SemanticVersion)
    requires InformationalInvertible(v)
    ensures ToString(v, Some("i")).Ok?
    ensures var p := TryParse(ToString(v, Some("i")).value, []); p.Some? && FullEqual(p.value, v)
  {
    InformationalParses(v);
    InformationalGroupsDescribe(v);
  }

  /** The "i" text matches the pattern with the informational groups. */
  lemma InformationalParses(v: SemanticVersion)
    requires InformationalInvertible(v)
    ensures ToString(v, Some("i")) == Ok(GroupsText(InformationalGroups(v)))
    ensures Canonical(InformationalGroups(v))
    ensures TryParse(GroupsText(InformationalGroups(v)), []) == Some(FromGroups(InformationalGroups(v)))
  {
    var g := InformationalGroups(v);
    InformationalTextIsGroupsText(v);
    var s := GroupsText(g);
    assert SingleLine(s) && LineBody(s) == s;
    assert StripPrefix(s, []) == Some(s);
    MatchVersionComplete(g);
  }

  /** The version the informational groups describe equals the original under the `Full` comparer. */
  lemma InformationalGroupsDescribe(v: SemanticVersion)
    requires InformationalInvertible(v)
    ensures Canonical(InformationalGroups(v)) && FullEqual(FromGroups(InformationalGroups(v)), v)
  {
    var g := InformationalGroups(v);
    InformationalGroupsSingleLine(v);
    var r := FromGroups(g);
    NatToStringRoundTrip(v.major);
    NatToStringRoundTrip(v.minor);
    NatToStringRoundTrip(v.patch);
    assert SameCore(r, v);
    assert r.tag == v.tag by {
      if v.tag.IsNull() {
        assert g.tag == None;
        assert T.Parse(Some([])) == T.NullTag;
        assert v.tag == T.NullTag;
      } else {
        T.TagTextRoundTrip(v.tag);
      }
    }
    assert g.fourth.None?;
    assert r.meta == B.Parse(Some(g.meta.GetOr([])));
    assert g.meta.GetOr([]) == BR.TrimmedFullText(v.meta);
    BR.FullFormatRoundTrip(v.meta);
  }
}
