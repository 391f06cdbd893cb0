/**
 * `IncrementStrategy`: a tagged version bumps its pre-release number, an untagged
 * version bumps the configured field.
 */
module Increments {
  import W = Wrappers
  import T = PreReleaseTags
  import B = BuildMetadatas
  import opened SemanticVersions

  /** `VersionField`; an enum variable may also hold a value outside the declared ones. */
  datatype VersionField = None | Patch | Minor | Major | Undefined(value: int)

  /** `IncrementPreReleaseTagVersion`: a numbered tag counts up, an unnumbered tag is copied. */
  function IncrementPreReleaseTag(v: SemanticVersion): (r: SemanticVersion)
    ensures SameCore(r, v) && r.tag.name == v.tag.name
    ensures v.tag.number.Some? ==> r.tag.number == W.Some(v.tag.number.value + 1) && r.meta == v.meta
    ensures v.tag.number.None? ==> FullEqual(r, v)
  {
    match v.tag.number
    case Some(n) => SemanticVersion(v.major, v.minor, v.patch, T.PreReleaseTag(v.tag.name, W.Some(n + 1)), v.meta)
    case None => Copy(v)
  }

  /** `IncrementVersionField`: a new version with one field bumped and the lower ones reset. */
  function IncrementField(field: VersionField, v: SemanticVersion): (r: W.Result<SemanticVersion>)
    ensures r.Err? <==> field.Undefined?
    ensures r.Err? ==> r.error == W.ArgumentException("incrementField")
    ensures field == None ==> r.Ok? && FullEqual(r.value, v)
    ensures field == Major ==> r == W.Ok(SemanticVersion(v.major + 1, 0, 0, v.tag, v.meta))
    ensures field == Minor ==> r == W.Ok(SemanticVersion(v.major, v.minor + 1, 0, v.tag, v.meta))
    ensures field == Patch ==> r == W.Ok(SemanticVersion(v.major, v.minor, v.patch + 1, v.tag, v.meta))
  {
    match field
    case None => W.Ok(Copy(v))
    case Major => W.Ok(SemanticVersion(v.major + 1, 0, 0, v.tag, v.meta))
    case Minor => W.Ok(SemanticVersion(v.major, v.minor + 1, 0, v.tag, v.meta))
    case Patch => W.Ok(SemanticVersion(v.major, v.minor, v.patch + 1, v.tag, v.meta))
    case Undefined(_) => W.Err(W.ArgumentException("incrementField"))
  }

  /** `IncrementStrategy`: the field to bump when the version carries no pre-release tag. */
  datatype IncrementStrategy = IncrementStrategy(incrementField: VersionField)
  {
    /** `IncrementVersion`: the pre-release path for a non-null tag, the field path otherwise. */
    function IncrementVersion(v: SemanticVersion): (r: W.Result<SemanticVersion>)
      ensures r.Err? <==> v.tag.IsNull() && incrementField.Undefined?
      ensures !v.tag.IsNull() ==> r == W.Ok(IncrementPreReleaseTag(v))
      ensures v.tag.IsNull() ==> r == IncrementField(incrementField, v)
    {
      if v.tag.IsNull() then IncrementField(incrementField, v) else W.Ok(IncrementPreReleaseTag(v))
    }
  }

  /** With a non-null tag the configured field plays no part. */
  lemma TaggedVersionIgnoresField(f1: VersionField, f2: VersionField, v: SemanticVersion)
    requires !v.tag.IsNull()
    ensures IncrementStrategy(f1).IncrementVersion(v) == IncrementStrategy(f2).IncrementVersion(v)
  {
  }

  /** A numbered tag gains one in its number and nothing else changes. */
  lemma NumberedTagCountsUp(s: IncrementStrategy, v: SemanticVersion)
    requires !v.tag.IsNull() && v.tag.number.Some?
    ensures s.IncrementVersion(v) == W.Ok(v.(tag := v.tag.(number := W.Some(v.tag.number.value + 1))))
  {
  }

  /** A bump never yields a version that compares below its input. */
  lemma IncrementNeverDecreases(s: IncrementStrategy, v: SemanticVersion)
    requires s.IncrementVersion(v).Ok?
    ensures CompareTo(s.IncrementVersion(v).value, W.Some(v)) >= 0
  {
    var r := s.IncrementVersion(v).value;
    if !v.tag.IsNull() && v.tag.number.Some? {
      T.CompareToZero(v.tag, v.tag);
      assert T.CompareTo(r.tag, v.tag) == 1;
    } else {
      T.CompareToZero(v.tag, v.tag);
    }
  }

  /** A field bump on an untagged version compares strictly above the input. */
  lemma FieldBumpIncreases(f: VersionField, v: SemanticVersion)
    requires v.tag.IsNull() && f in {Major, Minor, Patch}
    ensures CompareTo(IncrementStrategy(f).IncrementVersion(v).value, W.Some(v)) == 1
  {
  }
}
