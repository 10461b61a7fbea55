/** Package identifiers: `name[/version[/build]]`, the build identifier that
    also names its repository, their text forms, storage paths, the
    conversions to and from the parsed parts, and their order. */
module Idents {
  import opened Wrappers
  import opened Seqs
  import opened Strs
  import opened Versions
  import opened Builds

  /** A stand-in for package-name validation, which lives outside the modelled
      files: a non-empty run of lower-case letters, digits and `-`. */
  predicate IsNameChar(c: char) { ('a' <= c <= 'z') || ('0' <= c <= '9') || c == '-' }

  predicate ValidName(s: string) {
    |s| >= 1 && forall k | 0 <= k < |s| :: IsNameChar(s[k])
  }

  type PkgName = s: string | ValidName(s) witness "a"

  function ParseName(s: string): (r: Result<PkgName, string>)
    ensures r.Ok? <==> ValidName(s)
    ensures r.Ok? ==> r.value == s
  {
    if ValidName(s) then Ok(s) else Err("invalid package name: " + s)
  }

  datatype Ident = Ident(name: PkgName, version: Version, build: Option<Build>)

  datatype BuildIdent = BuildIdent(repositoryName: string, name: PkgName, version: Version, build: Build)

  /** `Ident::new`: the default (zero) version and no build. */
  function New(name: PkgName): (r: Ident)
    ensures r.name == name && IsZero(r.version) && r.build.None?
  {
    Ident.Ident(name, Zero, None)
  }

  // ----- build predicates -----

  /** Only a digest build can have embedded packages. */
  predicate CanEmbed(i: Ident) {
    i.build.Some? && i.build.value.Digest?
  }

  predicate IsEmbedded(i: Ident) {
    i.build.Some? && i.build.value.IsEmbedded()
  }

  /** A missing build is not a source build. */
  predicate IsSource(i: Ident) {
    match i.build
    case Some(b) => b.IsSource()
    case None => false
  }

  /** At most one of the three holds, none without a build, and all three
      depend on nothing but the build. */
  lemma BuildPredicates(i: Ident, j: Ident)
    ensures !(CanEmbed(i) && IsEmbedded(i)) && !(CanEmbed(i) && IsSource(i))
      && !(IsEmbedded(i) && IsSource(i))
    ensures i.build.None? ==> !CanEmbed(i) && !IsEmbedded(i) && !IsSource(i)
    ensures IsSource(i) <==> i.build == Some(Source)
    ensures i.build == j.build ==>
      CanEmbed(i) == CanEmbed(j) && IsEmbedded(i) == IsEmbedded(j) && IsSource(i) == IsSource(j)
  {
  }

  // ----- copies with one part replaced -----

  function WithVersion(i: Ident, version: Version): (r: Ident)
    ensures r.name == i.name && r.build == i.build && r.version == version
  {
    Ident.Ident(i.name, version, i.build)
  }

  /** `with_build` returns a copy with the build replaced; `set_build`, which
      assigns it in place, gives the same value on this value type. */
  function WithBuild(i: Ident, build: Option<Build>): (r: Ident)
    ensures r.name == i.name && r.version == i.version && r.build == build
  {
    i.(build := build)
  }

  function IntoBuild(i: Ident, build: Build): (r: Ident)
    ensures r.name == i.name && r.version == i.version && r.build == Some(build)
  {
    i.(build := Some(build))
  }

  /** Replacing the build twice keeps the last one, and replacing it by
      itself changes nothing. */
  lemma WithBuildLaws(i: Ident, b1: Option<Build>, b2: Option<Build>)
    ensures WithBuild(WithBuild(i, b1), b2) == WithBuild(i, b2)
    ensures WithBuild(i, i.build) == i
    ensures WithVersion(i, i.version) == i
    ensures b1.Some? ==> IntoBuild(i, b1.value) == WithBuild(i, b1)
  {
  }

  // ----- build identifiers -----

  function TryIntoBuildIdent(i: Ident, repositoryName: string): (r: Result<BuildIdent, string>)
    ensures r.Err? <==> i.build.None?
    ensures r.Ok? ==> r.value == BuildIdent(repositoryName, i.name, i.version, i.build.value)
  {
    match i.build
    case Some(b) => Ok(BuildIdent(repositoryName, i.name, i.version, b))
    case None => Err("Ident must contain a build to become a BuildIdent")
  }

  function FromBuildIdent(bi: BuildIdent): (r: Ident)
    ensures r.build.Some?
  {
    Ident.Ident(bi.name, bi.version, Some(bi.build))
  }

  /** The conversion to a build identifier loses nothing: converting back
      gives the original ident, and every build identifier arises this way. */
  lemma BuildIdentRoundTrip(i: Ident, repositoryName: string, bi: BuildIdent)
    ensures TryIntoBuildIdent(i, repositoryName).Ok? ==>
      FromBuildIdent(TryIntoBuildIdent(i, repositoryName).value) == i
    ensures TryIntoBuildIdent(FromBuildIdent(bi), bi.repositoryName) == Ok(bi)
  {
  }

  function BuildIdentIsSource(bi: BuildIdent): (r: bool)
    ensures r == IsSource(FromBuildIdent(bi))
  {
    bi.build.IsSource()
  }

  // ----- text -----

  /** The version and build as shown after the name: the build forces the
      version to be shown, and a zero version with no build shows nothing. */
  function VersionAndBuild(i: Ident): (r: Option<string>)
  {
    match i.build
    case Some(b) => Some(Text(i.version) + "/" + DigestText(b))
    case None => if IsZero(i.version) then None else Some(Text(i.version))
  }

  function Display(i: Ident): (r: string)
  {
    match VersionAndBuild(i)
    case Some(vb) => i.name + "/" + vb
    case None => i.name
  }

  function BuildIdentDisplay(bi: BuildIdent): (r: string)
  {
    bi.repositoryName + "/" + bi.name + "/" + Text(bi.version) + "/" + DigestText(bi.build)
  }

  /** The pieces the text of an ident is made of, in order. */
  function Pieces(i: Ident): (r: seq<string>)
    ensures |r| >= 1 && r[0] == i.name
  {
    match i.build
    case Some(b) => [i.name, Text(i.version), DigestText(b)]
    case None => if IsZero(i.version) then [i.name] else [i.name, Text(i.version)]
  }

  lemma {:induction false} DisplayIsJoin(i: Ident)
    ensures Display(i) == Join(Pieces(i), '/')
    ensures |Pieces(i)| == 1 <==> VersionAndBuild(i).None?
  {
    var n, v := i.name, Text(i.version);
    match i.build
    case Some(b) =>
      var d := DigestText(b);
      JoinSmall(n, v, d, '/');
      assert Pieces(i) == [n, v, d];
      assert Display(i) == n + "/" + (v + "/" + d);
      assert n + "/" + (v + "/" + d) == n + ['/'] + v + ['/'] + d;
    case None =>
      JoinSmall(n, v, "", '/');
      if IsZero(i.version) {
        assert Pieces(i) == [n];
      } else {
        assert Pieces(i) == [n, v];
        assert Display(i) == n + ['/'] + v;
      }
  }

  /** A build identifier prints as its repository name followed by the text
      of the ident it converts to, with the version always present. */
  lemma BuildIdentDisplayShape(bi: BuildIdent)
    ensures BuildIdentDisplay(bi) == bi.repositoryName + "/" + Display(FromBuildIdent(bi))
    ensures BuildIdentDisplay(bi)
      == bi.repositoryName + "/" + Join([bi.name, Text(bi.version), DigestText(bi.build)], '/')
  {
    JoinSmall(bi.name, Text(bi.version), DigestText(bi.build), '/');
  }

  /** Display drops a zero version only when there is no build. */
  lemma DisplayCases(i: Ident)
    ensures i.build.None? && IsZero(i.version) ==> Display(i) == i.name
    ensures i.build.None? && !IsZero(i.version) ==> Display(i) == i.name + "/" + Text(i.version)
    ensures i.build.Some? ==>
      Display(i) == i.name + "/" + Text(i.version) + "/" + DigestText(i.build.value)
  {
  }

  predicate SlashFree(s: string) { '/' !in s }

  /** Builds whose text keeps the displayed pieces apart. */
  predicate PrintableBuild(b: Option<Build>) {
    b.Some? ==> DistinctText(b.value) && SlashFree(DigestText(b.value))
  }

  lemma TextSlashFree(v: Version)
    ensures SlashFree(Text(v))
  {
    assert forall k | 0 <= k < |NatToString(v.major)| :: NatToString(v.major)[k] != '/';
    assert forall k | 0 <= k < |NatToString(v.minor)| :: NatToString(v.minor)[k] != '/';
    assert forall k | 0 <= k < |NatToString(v.patch)| :: NatToString(v.patch)[k] != '/';
  }

  lemma TextInjective(v: Version, w: Version)
    requires Text(v) == Text(w)
    ensures v == w
  {
    ParseText(v);
    ParseText(w);
  }

  lemma PiecesSlashFree(i: Ident)
    requires PrintableBuild(i.build)
    ensures forall k | 0 <= k < |Pieces(i)| :: '/' !in Pieces(i)[k]
  {
    TextSlashFree(i.version);
    assert forall k | 0 <= k < |i.name| :: i.name[k] != '/';
  }

  /** Distinct idents print differently, as long as their builds print
      unambiguously. */
  lemma {:induction false} DisplayInjective(a: Ident, b: Ident)
    requires PrintableBuild(a.build) && PrintableBuild(b.build)
    requires Display(a) == Display(b)
    ensures a == b
  {
    DisplayIsJoin(a);
    DisplayIsJoin(b);
    PiecesSlashFree(a);
    PiecesSlashFree(b);
    SplitJoin(Pieces(a), '/');
    SplitJoin(Pieces(b), '/');
    var p := Pieces(a);
    assert p == Pieces(b);
    if |p| >= 2 {
      TextInjective(a.version, b.version);
    }
    if |p| == 3 {
      DigestTextInjective(a.build.value, b.build.value);
    }
  }

  // ----- storage paths -----

  /** `metadata_path`: the name, joined with the version's and the build's
      own path segments (both defined outside the modelled files, so they are
      parameters here), under the same zero-version and no-build rule as the
      text. */
  function MetadataPath(i: Ident, versionSegment: Version -> string, buildSegment: Build -> string): (r: string)
  {
    match i.build
    case Some(b) => i.name + "/" + versionSegment(i.version) + "/" + buildSegment(b)
    case None => if IsZero(i.version) then i.name else i.name + "/" + versionSegment(i.version)
  }

  /** `tag_path`: the same shape as the metadata path, with the tag-path
      segments of the version and the build. */
  function TagPath(i: Ident, versionSegment: Version -> string, buildSegment: Build -> string): (r: string)
  {
    match i.build
    case Some(b) => i.name + "/" + versionSegment(i.version) + "/" + buildSegment(b)
    case None => if IsZero(i.version) then i.name else i.name + "/" + versionSegment(i.version)
  }

  /** When the segments are the printed texts, both paths are the displayed
      ident: a path has one, two or three parts exactly as the text does. */
  lemma PathsFollowDisplay(i: Ident)
    ensures MetadataPath(i, Text, DigestText) == Display(i)
    ensures TagPath(i, Text, DigestText) == Display(i)
  {
  }

  function BuildIdentMetadataPath(bi: BuildIdent, versionSegment: Version -> string, buildSegment: Build -> string): (r: string)
    ensures r == MetadataPath(FromBuildIdent(bi), versionSegment, buildSegment)
  {
    bi.name + "/" + versionSegment(bi.version) + "/" + buildSegment(bi.build)
  }

  function BuildIdentTagPath(bi: BuildIdent, versionSegment: Version -> string, buildSegment: Build -> string): (r: string)
    ensures r == TagPath(FromBuildIdent(bi), versionSegment, buildSegment)
  {
    bi.name + "/" + versionSegment(bi.version) + "/" + buildSegment(bi.build)
  }

  // ----- parsed parts -----

  datatype IdentPartsBuf = IdentPartsBuf(
    repositoryName: Option<string>,
    pkgName: string,
    versionStr: Option<string>,
    buildStr: Option<string>)

  function PartsFromIdent(i: Ident): (r: IdentPartsBuf)
    ensures r.repositoryName.None? && r.pkgName == i.name && r.versionStr == Some(Text(i.version))
    ensures r.buildStr.Some? <==> i.build.Some?
  {
    IdentPartsBuf(None, i.name, Some(Text(i.version)), match i.build case Some(b) => Some(Builds.Display(b)) case None => None)
  }

  /** `PartialEq<&Ident> for IdentPartsBuf`. */
  predicate PartsEq(p: IdentPartsBuf, i: Ident) {
    && p.repositoryName.None?
    && p.pkgName == i.name
    && p.versionStr == Some(Text(i.version))
    && p.buildStr == (match i.build case Some(b) => Some(Builds.Display(b)) case None => None)
  }

  function ParseOptionalBuild(s: Option<string>): Result<Option<Build>, string> {
    match s
    case None => Ok(None)
    case Some(t) =>
      match ParseBuild(t)
      case Ok(b) => Ok(Some(b))
      case Err(e) => Err(e)
  }

  /** `TryFrom<&IdentPartsBuf> for Ident`: a repository name is refused, a
      missing version is the default one, and each present part must parse. */
  function TryFromParts(p: IdentPartsBuf): (r: Result<Ident, string>)
    ensures p.repositoryName.Some? ==> r == Err("Ident may not have a repository name")
    ensures r.Ok? ==> r.value.name == p.pkgName && r.value.build.Some? == p.buildStr.Some?
    ensures r.Ok? && p.versionStr.None? ==> r.value.version == Zero
  {
    if p.repositoryName.Some? then Err("Ident may not have a repository name")
    else
      var name :- ParseName(p.pkgName);
      var version :- match p.versionStr case Some(v) => Parse(v) case None => Ok(Zero);
      var build :- ParseOptionalBuild(p.buildStr);
      Ok(Ident.Ident(name, version, build))
  }

  /** The parts of an ident compare equal to it, and read back to it. */
  lemma PartsRoundTrip(i: Ident)
    ensures PartsEq(PartsFromIdent(i), i)
    ensures i.build.Some? ==> DistinctText(i.build.value) ==> TryFromParts(PartsFromIdent(i)) == Ok(i)
    ensures i.build.None? ==> TryFromParts(PartsFromIdent(i)) == Ok(i)
  {
    ParseText(i.version);
    if i.build.Some? && DistinctText(i.build.value) {
      ParseDigestText(i.build.value);
    }
  }

  // ----- the derived order -----

  predicate OptionBuildLess(a: Option<Build>, b: Option<Build>) {
    match (a, b)
    case (None, Some(_)) => true
    case (Some(x), Some(y)) => BuildLess(x, y)
    case _ => false
  }

  /** The derived `Ord` of `Ident`: by name, then version, then build, with
      a missing build first. */
  predicate IdentLess(a: Ident, b: Ident) {
    if a.name != b.name then LexLess(a.name, b.name, CharLess)
    else if a.version != b.version then Less(a.version, b.version)
    else OptionBuildLess(a.build, b.build)
  }

  lemma {:induction false} IdentLessStrictTotal(a: Ident, b: Ident, c: Ident)
    ensures !IdentLess(a, a)
    ensures IdentLess(a, b) && IdentLess(b, c) ==> IdentLess(a, c)
    ensures a != b ==> IdentLess(a, b) || IdentLess(b, a)
  {
    CharLessStrictTotal();
    LexIrreflexive(a.name, CharLess);
    if a.name != b.name {
      LexTotal(a.name, b.name, CharLess);
    }
    LessIsStrictTotal(a.version, b.version, c.version);
    if a.build.Some? && b.build.Some? && c.build.Some? {
      BuildLessStrictTotal(a.build.value, b.build.value, c.build.value);
    } else if a.build.Some? && b.build.Some? {
      BuildLessStrictTotal(a.build.value, b.build.value, b.build.value);
    } else if a.build.Some? {
      BuildLessStrictTotal(a.build.value, a.build.value, a.build.value);
    }
    if IdentLess(a, b) && IdentLess(b, c) {
      if a.name != b.name && b.name != c.name {
        LexTransitive(a.name, b.name, c.name, CharLess);
        if a.name == c.name {
          LexIrreflexive(a.name, CharLess);
          LexTransitive(b.name, c.name, b.name, CharLess);
          LexIrreflexive(b.name, CharLess);
        }
      }
      if a.name == b.name && b.name == c.name && a.version == b.version && b.version == c.version {
        if b.build.Some? && c.build.Some? && a.build.Some? {
          BuildLessStrictTotal(a.build.value, b.build.value, c.build.value);
        }
      }
    }
  }
}
