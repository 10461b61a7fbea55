/** The solver's package validators: the deprecation policy, the
    binary-only policy, the enum that dispatches to them and the default
    list. Each validator reads the candidate spec and, through the solver
    state, the merged request for the candidate's package name. */
module Validation {
  import opened Wrappers
  import opened Builds
  import Idents

  datatype Compatibility = Compatible | Incompatible(reason: string)

  /** The parts of a package spec the validators read. */
  datatype Spec = Spec(pkg: Idents.Ident, deprecated: bool)

  const DEPRECATED_VERSION: string := "package version is deprecated"
  const DEPRECATED_BUILD: string := "build is deprecated (and not requested exactly)"
  const ONLY_BINARY_PACKAGES_ALLOWED: string := "only binary packages are allowed"

  /** `state.get_merged_request(name)`, reduced to what the validators use:
      the build the merged request asks for (`None` when it asks for none),
      or the error the lookup fails with. */
  type MergedBuild = Idents.PkgName -> Result<Option<Build>, string>

  /** Deprecated packages are refused unless this exact build was asked for. */
  function ValidateDeprecation(spec: Spec, merged: MergedBuild): (r: Result<Compatibility, string>)
    ensures !spec.deprecated ==> r == Ok(Compatible)
    ensures spec.deprecated && spec.pkg.build.None? ==> r == Ok(Incompatible(DEPRECATED_VERSION))
    ensures spec.deprecated && spec.pkg.build.Some? ==>
      (merged(spec.pkg.name).Err? ==> r == Err(merged(spec.pkg.name).error))
    ensures spec.deprecated && spec.pkg.build.Some? && merged(spec.pkg.name).Ok? ==>
      (r == Ok(Compatible) <==> merged(spec.pkg.name).value == spec.pkg.build)
    ensures spec.deprecated && spec.pkg.build.Some? && merged(spec.pkg.name).Ok? ==>
      (r != Ok(Compatible) ==> r == Ok(Incompatible(DEPRECATED_BUILD)))
  {
    if !spec.deprecated then Ok(Compatible)
    else if spec.pkg.build.None? then Ok(Incompatible(DEPRECATED_VERSION))
    else match merged(spec.pkg.name)
      case Err(e) => Err(e)
      case Ok(requested) =>
        if requested == spec.pkg.build then Ok(Compatible)
        else Ok(Incompatible(DEPRECATED_BUILD))
  }

  /** Only builds that already exist may be used: a spec without a build is
      refused, and a source build is refused unless the merged request asks
      for the source build itself. */
  function ValidateBinaryOnly(spec: Spec, merged: MergedBuild): (r: Result<Compatibility, string>)
    ensures spec.pkg.build.None? ==> r == Ok(Incompatible(ONLY_BINARY_PACKAGES_ALLOWED))
    ensures spec.pkg.build.Some? && merged(spec.pkg.name).Err? ==> r == Err(merged(spec.pkg.name).error)
    ensures spec.pkg.build == Some(Source) && merged(spec.pkg.name).Ok? ==>
      (r == Ok(Compatible) <==> merged(spec.pkg.name).value == Some(Source))
    ensures spec.pkg.build.Some? && spec.pkg.build != Some(Source) && merged(spec.pkg.name).Ok? ==>
      r == Ok(Compatible)
    ensures r.Ok? && r.value.Incompatible? ==> r.value.reason == ONLY_BINARY_PACKAGES_ALLOWED
  {
    if spec.pkg.build.None? then Ok(Incompatible(ONLY_BINARY_PACKAGES_ALLOWED))
    else match merged(spec.pkg.name)
      case Err(e) => Err(e)
      case Ok(requested) =>
        if spec.pkg.build == Some(Source) && requested != spec.pkg.build then
          Ok(Incompatible(ONLY_BINARY_PACKAGES_ALLOWED))
        else Ok(Compatible)
  }

  datatype Validator = Deprecation | BinaryOnly

  /** The enum's `validate` hands the call to the validator it wraps. */
  function Validate(v: Validator, spec: Spec, merged: MergedBuild): (r: Result<Compatibility, string>)
    ensures v.Deprecation? ==> r == ValidateDeprecation(spec, merged)
    ensures v.BinaryOnly? ==> r == ValidateBinaryOnly(spec, merged)
  {
    match v
    case Deprecation => ValidateDeprecation(spec, merged)
    case BinaryOnly => ValidateBinaryOnly(spec, merged)
  }

  /** `default_validators`: the deprecation policy alone. */
  function DefaultValidators(): (r: seq<Validator>)
    ensures r == [Deprecation]
  {
    [Deprecation]
  }

  /** A validator only fails when the merged-request lookup fails, and then
      with that lookup's error: an error never turns into `Incompatible`,
      nor `Incompatible` into an error. */
  lemma ErrorsComeFromLookup(v: Validator, spec: Spec, merged: MergedBuild)
    ensures Validate(v, spec, merged).Err? ==>
      merged(spec.pkg.name).Err? && Validate(v, spec, merged).error == merged(spec.pkg.name).error
    ensures merged(spec.pkg.name).Ok? ==> Validate(v, spec, merged).Ok?
  {
  }

  /** The result depends on the state only through the merged request of
      the candidate's own package. */
  lemma OnlyOwnRequestMatters(v: Validator, spec: Spec, m1: MergedBuild, m2: MergedBuild)
    requires m1(spec.pkg.name) == m2(spec.pkg.name)
    ensures Validate(v, spec, m1) == Validate(v, spec, m2)
  {
  }

  /** A build that passes the binary-only policy is not a fresh build from
      source unless the source build was asked for by name. */
  lemma BinaryOnlyPassMeans(spec: Spec, merged: MergedBuild)
    requires ValidateBinaryOnly(spec, merged) == Ok(Compatible)
    ensures spec.pkg.build.Some?
    ensures spec.pkg.build == Some(Source) ==> merged(spec.pkg.name) == Ok(Some(Source))
  {
  }

  /** A deprecated build passes only when the merged request names it. */
  lemma DeprecationPassMeans(spec: Spec, merged: MergedBuild)
    requires ValidateDeprecation(spec, merged) == Ok(Compatible)
    ensures spec.deprecated ==> spec.pkg.build.Some? && merged(spec.pkg.name) == Ok(spec.pkg.build)
  {
  }
}
