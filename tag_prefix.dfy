/**
 * The configured tag prefix is the text of a .NET regular expression. The model reads
 * it as the list of literal texts it accepts, in the order the regex engine tries them:
 * a character class of plain characters such as the default `[vV]` accepts each of its
 * characters, any other pattern is a list of literal alternatives separated by `|`,
 * and a null pattern accepts nothing. Whether `^` anchors every alternative depends on
 * whether the pattern is grouped where it is used.
 */
module TagPrefixes {
  import opened Wrappers
  import C = Configurations

  /** A character with no meaning inside a character class. */
  predicate PlainClassChar(c: char)
  {
    c != '[' && c != ']' && c != '\\' && c != '^' && c != '-'
  }

  /** `[c1c2...cn]` with at least one plain character. */
  predicate IsClass(p: string)
  {
    |p| >= 3 && p[0] == '[' && p[|p| - 1] == ']' && forall i :: 1 <= i < |p| - 1 ==> PlainClassChar(p[i])
  }

  /** The parts of `s` between the separators, in order. */
  function Split(s: string, sep: char): (r: seq<string>)
    ensures |r| > 0
    ensures forall i :: 0 <= i < |r| ==> sep !in r[i]
    decreases |s|
  {
    if sep !in s then [s]
    else
      var i := IndexOfChar(s, sep);
      [s[..i]] + Split(s[i + 1..], sep)
  }

  /** The index of the first `c` in `s`, which holds one. */
  function IndexOfChar(s: string, c: char): (i: nat)
    requires c in s
    ensures i < |s| && s[i] == c && c !in s[..i]
  {
    if s[0] == c then 0
    else
      assert s == [s[0]] + s[1..];
      var j := IndexOfChar(s[1..], c);
      assert s[..j + 1] == [s[0]] + s[1..][..j];
      j + 1
  }

  /** The parts put back together with the separator between them. */
  function Join(parts: seq<string>, sep: char): string
    requires |parts| > 0
    decreases |parts|
  {
    if |parts| == 1 then parts[0] else parts[0] + [sep] + Join(parts[1..], sep)
  }

  /** Splitting loses nothing: joining the parts gives the text back. */
  lemma {:induction false} SplitJoin(s: string, sep: char)
    ensures Join(Split(s, sep), sep) == s
    decreases |s|
  {
    if sep in s {
      var i := IndexOfChar(s, sep);
      SplitJoin(s[i + 1..], sep);
      assert s == s[..i] + [sep] + s[i + 1..];
    }
  }

  /** The literal texts a tag-prefix pattern accepts, in the order they are tried. */
  function Alternatives(pattern: Option<string>): (r: seq<string>)
    ensures pattern.None? ==> r == []
    ensures pattern.Some? && IsClass(pattern.value) ==>
      |r| == |pattern.value| - 2 && forall i :: 0 <= i < |r| ==> r[i] == [pattern.value[i + 1]]
    ensures pattern.Some? && !IsClass(pattern.value) ==> |r| > 0 && Join(r, '|') == pattern.value
  {
    match pattern
    case None => []
    case Some(p) =>
      if IsClass(p) then seq(|p| - 2, i requires 0 <= i < |p| - 2 => [p[i + 1]])
      else
        SplitJoin(p, '|');
        Split(p, '|')
  }

  /**
   * How `"^" + pattern`, with no group around the pattern, reads the alternatives: `^`
   * binds to the first alternative of an alternation only, so the others may match
   * anywhere; a class is anchored whole; a null pattern leaves a bare `^`, which matches
   * nothing that could be removed.
   */
  datatype Anchoring = Anchoring(anchored: seq<string>, anywhere: seq<string>)

  function Ungrouped(pattern: Option<string>): (r: Anchoring)
    ensures pattern.None? ==> r == Anchoring([], [])
    ensures r.anchored + r.anywhere == Alternatives(pattern)
    ensures pattern.Some? && IsClass(pattern.value) ==> r.anywhere == []
    ensures pattern.Some? && !IsClass(pattern.value) ==> |r.anchored| == 1 && Join(r.anchored + r.anywhere, '|') == pattern.value
  {
    match pattern
    case None => Anchoring([], [])
    case Some(p) =>
      var alts := Alternatives(pattern);
      if IsClass(p) then Anchoring(alts, [])
      else
        assert [alts[0]] + alts[1..] == alts;
        Anchoring([alts[0]], alts[1..])
  }

  /** A pattern without `|` is anchored whole, as with the group around it. */
  lemma UngroupedLiteral(p: string)
    requires !IsClass(p) && '|' !in p
    ensures Ungrouped(Some(p)) == Anchoring([p], [])
  {
  }

  /** "a|b" anchors "a" only; "b" may match anywhere. */
  lemma UngroupedAlternation()
    ensures Ungrouped(Some("a|b")) == Anchoring(["a"], ["b"])
  {
    var p := "a|b";
    assert !IsClass(p) by { assert p[0] != '['; }
    assert '|' in p && IndexOfChar(p, '|') == 1;
    assert p[..1] == "a" && p[2..] == "b";
    assert '|' !in "b";
  }

  /** The default prefix `[vV]` is anchored whole. */
  lemma DefaultUngrouped()
    ensures Ungrouped(Some(C.DefaultTagPrefix)) == Anchoring(["v", "V"], [])
  {
    DefaultAlternatives();
  }

  /** A pattern with no `|` that is not a class accepts exactly its own text. */
  lemma LiteralPattern(p: string)
    requires !IsClass(p) && '|' !in p
    ensures Alternatives(Some(p)) == [p]
  {
  }

  /** The default prefix `[vV]` accepts "v" and then "V". */
  lemma DefaultAlternatives()
    ensures Alternatives(Some(C.DefaultTagPrefix)) == ["v", "V"]
  {
    assert IsClass(C.DefaultTagPrefix);
  }
}
