/**
 * `AssemblyVersionsGenerator`: the four-part assembly version a versioning scheme
 * makes of a semantic version. `AssemblyVersioningScheme` and
 * `AssemblyFileVersioningScheme` have the same members and the two switches agree
 * case by case, so one scheme type and one function model both.
 */
module AssemblyVersioning {
  import W = Wrappers
  import opened Text
  import S = SemanticVersions

  /**
   * The scheme enum; an enum variable may also hold a value outside the declared ones.
   * `Undefined(value)` stands only for such an undeclared value: a declared value is
   * always its own constructor.
   */
  datatype Scheme = MajorMinorPatchTag | MajorMinorPatch | MajorMinor | Major | None | Undefined(value: int)

  /** `$"{a}.{b}.{c}.{d}"`. */
  function FourPart(a: nat, b: nat, c: nat, d: nat): string
  {
    NatToString(a) + "." + (NatToString(b) + "." + (NatToString(c) + "." + NatToString(d)))
  }

  /** The numbers of the version a scheme keeps, most significant first. */
  function Kept(scheme: Scheme, v: S.SemanticVersion): seq<nat>
  {
    match scheme
    case Major => [v.major]
    case MajorMinor => [v.major, v.minor]
    case MajorMinorPatch => [v.major, v.minor, v.patch]
    case MajorMinorPatchTag => [v.major, v.minor, v.patch, v.tag.number.GetOr(0)]
    case _ => []
  }

  /** `Kept` padded with zeros to four numbers. */
  function Padded(k: seq<nat>): seq<nat>
    requires |k| <= 4
    ensures |Padded(k)| == 4
  {
    k + seq(4 - |k|, _ => 0)
  }

  /**
   * `GetAssemblyVersion(scheme)` and `GetAssemblyFileVersion(scheme)`: the kept numbers
   * and zeros, dot-separated; null for `None`; an `ArgumentException` for any other value.
   */
  function GetAssemblyVersion(v: S.SemanticVersion, scheme: Scheme): (r: W.Result<W.Option<string>>)
    ensures r.Err? <==> scheme.Undefined?
    ensures r.Err? ==> r.error == W.ArgumentException("Unexpected value (" + IntToString(scheme.value) + ").")
    ensures r == W.Ok(W.None) <==> scheme == None
    ensures r.Ok? && r.value.Some? ==>
      var p := Padded(Kept(scheme, v)); r.value.value == FourPart(p[0], p[1], p[2], p[3])
  {
    match scheme
    case Major => W.Ok(W.Some(FourPart(v.major, 0, 0, 0)))
    case MajorMinor => W.Ok(W.Some(FourPart(v.major, v.minor, 0, 0)))
    case MajorMinorPatch => W.Ok(W.Some(FourPart(v.major, v.minor, v.patch, 0)))
    case MajorMinorPatchTag => W.Ok(W.Some(FourPart(v.major, v.minor, v.patch, v.tag.number.GetOr(0))))
    case None => W.Ok(W.None)
    case Undefined(n) => W.Err(W.ArgumentException("Unexpected value (" + IntToString(n) + ")."))
  }

  /** The four-part text determines its four numbers. */
  lemma FourPartInjective(a: nat, b: nat, c: nat, d: nat, a': nat, b': nat, c': nat, d': nat)
    requires FourPart(a, b, c, d) == FourPart(a', b', c', d')
    ensures a == a' && b == b' && c == c' && d == d'
  {
    DigitsThenDotUnique(NatToString(a), NatToString(a'),
      NatToString(b) + "." + (NatToString(c) + "." + NatToString(d)),
      NatToString(b') + "." + (NatToString(c') + "." + NatToString(d')));
    DigitsThenDotUnique(NatToString(b), NatToString(b'),
      NatToString(c) + "." + NatToString(d), NatToString(c') + "." + NatToString(d'));
    DigitsThenDotUnique(NatToString(c), NatToString(c'), NatToString(d), NatToString(d'));
    NatToStringInjective(a, a');
    NatToStringInjective(b, b');
    NatToStringInjective(c, c');
    NatToStringInjective(d, d');
  }

  /** Two versions share an assembly version exactly when they agree on the numbers the scheme keeps. */
  lemma SameAssemblyVersionIff(v: S.SemanticVersion, w: S.SemanticVersion, scheme: Scheme)
    ensures GetAssemblyVersion(v, scheme) == GetAssemblyVersion(w, scheme) <==> Kept(scheme, v) == Kept(scheme, w)
  {
    var kv, kw := Kept(scheme, v), Kept(scheme, w);
    if GetAssemblyVersion(v, scheme) == GetAssemblyVersion(w, scheme) && scheme in {Major, MajorMinor, MajorMinorPatch, MajorMinorPatchTag} {
      var pv, pw := Padded(kv), Padded(kw);
      FourPartInjective(pv[0], pv[1], pv[2], pv[3], pw[0], pw[1], pw[2], pw[3]);
    }
  }

  /** `MajorMinorPatch` is the "j" text of the version followed by `.0`. */
  lemma MajorMinorPatchIsCoreText(v: S.SemanticVersion)
    ensures GetAssemblyVersion(v, MajorMinorPatch) == W.Ok(W.Some(S.CoreText(v) + ".0"))
    ensures S.ToString(v, W.Some("j")) == W.Ok(S.CoreText(v))
  {
    var m, n, p := NatToString(v.major), NatToString(v.minor), NatToString(v.patch);
    assert NatToString(0) == "0";
    assert m + "." + (n + "." + (p + "." + "0")) == m + "." + n + "." + p + ".0";
  }
}
