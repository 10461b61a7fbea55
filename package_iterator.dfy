/** Candidate ordering for one package: the versions a set of repositories
    offers (newest first, each taken from the first repository listing it),
    the builds of one version (from a repository, or sorted by build keys),
    and the package iterator that hands the solver one version's builds at
    a time. Repositories are reached through a `Storage` of lookups. */
module PackageIterators {
  import opened Wrappers
  import opened Seqs
  import opened Versions
  import opened Builds
  import Idents
  import opened Validation
  import BuildKeys
  import Strs

  datatype Error = PackageNotFound(name: string) | InvalidPackageSpec(message: string) | Other(message: string)

  /** A repository handle. */
  datatype Repo = Repo(name: string)

  /** The components of a published package, by name. */
  type Components = map<string, string>

  datatype PackageSource = Repository(repo: Repo, components: Components)

  /** A build as the build iterators yield it. */
  type Item = (Spec, PackageSource)

  /** The repository lookups the iterators call: the versions of a package,
      the builds of a version, a published spec and a package's components. */
  datatype Storage = Storage(
    listVersions: (Repo, Idents.PkgName) -> Result<seq<Version>, Error>,
    listBuilds: (Repo, Idents.Ident) -> Result<seq<Idents.Ident>, Error>,
    readSpec: (Repo, Idents.Ident) -> Result<Spec, Error>,
    getPackage: (Repo, Idents.Ident) -> Result<Components, Error>)

  // ----- the configured name order -----

  /** `BUILD_KEY_NAME_ORDER`: the configured order (`gcc,python` when none
      is set) split at commas, keeping only the valid option names. */
  function BuildKeyNameOrder(configured: Option<string>, validName: string -> bool): (r: seq<string>)
    ensures forall n | n in r :: validName(n) && ',' !in n
    ensures configured.Some? ==> forall n | n in Strs.Split(configured.value, ',') && validName(n) :: n in r
  {
    Filter(Strs.Split(configured.GetOr("gcc,python"), ','), validName)
  }

  /** The configured names keep their order: the key name order is the
      configured list with some names left out, and holds no other name. */
  lemma BuildKeyNameOrderKeepsOrder(configured: Option<string>, validName: string -> bool)
    ensures configured.Some? ==>
      SubseqOf(BuildKeyNameOrder(configured, validName), Strs.Split(configured.value, ','))
    ensures configured.Some? ==>
      forall n | n in BuildKeyNameOrder(configured, validName) :: n in Strs.Split(configured.value, ',')
  {
    FilterSubseq(Strs.Split(configured.GetOr("gcc,python"), ','), validName);
  }

  /** With nothing configured and both default names valid, the order is
      `gcc` then `python`. */
  lemma DefaultNameOrder(validName: string -> bool)
    requires validName("gcc") && validName("python")
    ensures BuildKeyNameOrder(None, validName) == BuildKeys.DEFAULT_NAME_ORDER
  {
    DefaultSplit();
    FilterAll(BuildKeys.DEFAULT_NAME_ORDER, validName);
  }

  /** The default order text splits into its two names. */
  lemma DefaultSplit()
    ensures Strs.Split("gcc,python", ',') == BuildKeys.DEFAULT_NAME_ORDER
  {
    Strs.JoinSmall("gcc", "python", "", ',');
    assert "gcc" + [','] + "python" == "gcc,python";
    assert ',' !in "gcc" && ',' !in "python";
    Strs.SplitJoin(["gcc", "python"], ',');
  }

  // ----- versions -----

  /** The queue of versions still to be offered. */
  datatype VersionIterator = VersionIterator(versions: seq<Version>)

  /** `VersionIterator::next`: the front of the queue. */
  function NextVersion(it: VersionIterator): (r: (Option<Version>, VersionIterator))
    ensures it.versions == [] ==> r.0.None? && r.1 == it
    ensures it.versions != [] ==> r.0 == Some(it.versions[0]) && [it.versions[0]] + r.1.versions == it.versions
  {
    if it.versions == [] then (None, it)
    else (Some(it.versions[0]), VersionIterator(it.versions[1..]))
  }

  /** Repository `i` lists version `v` of the package. */
  predicate ListedIn(store: Storage, name: Idents.PkgName, repos: seq<Repo>, i: int, v: Version) {
    0 <= i < |repos| && store.listVersions(repos[i], name).Ok? && v in store.listVersions(repos[i], name).value
  }

  /** Repository `i` lists `v` and none of the repositories from `lo` up to
      `i` does. */
  predicate FirstListedFrom(store: Storage, name: Idents.PkgName, repos: seq<Repo>, lo: int, i: int, v: Version) {
    lo <= i && ListedIn(store, name, repos, i, v) && forall j | lo <= j < i :: !ListedIn(store, name, repos, j, v)
  }

  /** Every repository from `lo` on answers the version listing. */
  predicate ListsFrom(store: Storage, name: Idents.PkgName, repos: seq<Repo>, lo: int) {
    forall j | lo <= j < |repos| && 0 <= j :: store.listVersions(repos[j], name).Ok?
  }

  /** Repository `i` is the last one whose listing fails. */
  predicate FailsLastAt(store: Storage, name: Idents.PkgName, repos: seq<Repo>, i: int) {
    0 <= i < |repos| && store.listVersions(repos[i], name).Err? && ListsFrom(store, name, repos, i + 1)
  }

  /** A version map: every listed version, each mapped to the first
      repository that lists it. */
  ghost predicate IsVersionMap(store: Storage, name: Idents.PkgName, repos: seq<Repo>, m: map<Version, Repo>) {
    && (forall v | v in m :: exists j | 0 <= j < |repos| :: ListedIn(store, name, repos, j, v))
    && (forall v, j | FirstListedFrom(store, name, repos, 0, j, v) :: v in m && m[v] == repos[j])
  }

  /** What `build_version_map` returns: the map when every listing succeeds
      and some version is listed; `PackageNotFound` when none is; otherwise
      the error of the last repository whose listing fails, since the
      repositories are walked from the back. */
  ghost predicate VersionMapResult(store: Storage, name: Idents.PkgName, repos: seq<Repo>, r: Result<map<Version, Repo>, Error>) {
    && (r.Ok? ==> ListsFrom(store, name, repos, 0) && IsVersionMap(store, name, repos, r.value) && r.value != map[])
    && (ListsFrom(store, name, repos, 0) && r.Err? ==>
          r.error == PackageNotFound(name) && forall j, v :: !ListedIn(store, name, repos, j, v))
    && (!ListsFrom(store, name, repos, 0) ==>
          exists i :: FailsLastAt(store, name, repos, i) && r == Err(store.listVersions(repos[i], name).error))
  }

  /** The map built from the repositories from `i` on. */
  ghost predicate CoversFrom(store: Storage, name: Idents.PkgName, repos: seq<Repo>, i: int, m: map<Version, Repo>) {
    && ListsFrom(store, name, repos, i)
    && (forall v | v in m :: exists j | i <= j < |repos| :: ListedIn(store, name, repos, j, v))
    && (forall v, j | FirstListedFrom(store, name, repos, i, j, v) :: v in m && m[v] == repos[j])
  }

  lemma CoversStep(store: Storage, name: Idents.PkgName, repos: seq<Repo>, i: nat,
                   m: map<Version, Repo>, m': map<Version, Repo>)
    requires i < |repos| && CoversFrom(store, name, repos, i + 1, m)
    requires store.listVersions(repos[i], name).Ok?
    requires m' == m + AllTo(store.listVersions(repos[i], name).value, repos[i])
    ensures CoversFrom(store, name, repos, i, m')
  {
    var listed := store.listVersions(repos[i], name).value;
    forall v | v in m' ensures exists j | i <= j < |repos| :: ListedIn(store, name, repos, j, v) {
      if v in listed {
        assert ListedIn(store, name, repos, i, v);
      }
    }
    forall v, j | FirstListedFrom(store, name, repos, i, j, v) ensures v in m' && m'[v] == repos[j] {
      if j > i {
        assert !ListedIn(store, name, repos, i, v);
        assert FirstListedFrom(store, name, repos, i + 1, j, v);
      }
    }
  }

  /** Every version of `vs` mapped to `repo`. */
  function AllTo(vs: seq<Version>, repo: Repo): map<Version, Repo> {
    map v | v in vs :: repo
  }

  lemma InsertVersionStep(m0: map<Version, Repo>, vs: seq<Version>, t: nat, repo: Repo)
    requires t < |vs|
    ensures (m0 + AllTo(vs[..t], repo))[vs[t] := repo] == m0 + AllTo(vs[..t + 1], repo)
  {
    assert vs[..t + 1] == vs[..t] + [vs[t]];
  }

  /** `build_version_map`: walks the repositories from the last to the
      first, so that the first repository listing a version is the one
      recorded for it. */
  method BuildVersionMap(store: Storage, name: Idents.PkgName, repos: seq<Repo>) returns (r: Result<map<Version, Repo>, Error>)
    ensures VersionMapResult(store, name, repos, r)
  {
    var m: map<Version, Repo> := map[];
    var i := |repos|;
    while i > 0
      invariant 0 <= i <= |repos|
      invariant CoversFrom(store, name, repos, i, m)
    {
      i := i - 1;
      var listing := store.listVersions(repos[i], name);
      if listing.Err? {
        assert FailsLastAt(store, name, repos, i);
        return Err(listing.error);
      }
      ghost var m0 := m;
      var vs := listing.value;
      var t := 0;
      while t < |vs|
        invariant 0 <= t <= |vs|
        invariant m == m0 + AllTo(vs[..t], repos[i])
      {
        InsertVersionStep(m0, vs, t, repos[i]);
        m := m[vs[t] := repos[i]];
        t := t + 1;
      }
      assert vs[..|vs|] == vs;
      CoversStep(store, name, repos, i, m0, m);
    }
    if m == map[] {
      NothingListed(store, name, repos);
      return Err(PackageNotFound(name));
    }
    r := Ok(m);
    FirstListedExists(store, name, repos);
  }

  lemma NothingListed(store: Storage, name: Idents.PkgName, repos: seq<Repo>)
    requires CoversFrom(store, name, repos, 0, map[])
    ensures forall j, v :: !ListedIn(store, name, repos, j, v)
  {
    forall j, v | ListedIn(store, name, repos, j, v) ensures false {
      FirstListing(store, name, repos, j, v);
    }
  }

  lemma FirstListedExists(store: Storage, name: Idents.PkgName, repos: seq<Repo>)
    ensures forall j, v | ListedIn(store, name, repos, j, v) :: exists f :: FirstListedFrom(store, name, repos, 0, f, v)
  {
    forall j, v | ListedIn(store, name, repos, j, v) ensures exists f :: FirstListedFrom(store, name, repos, 0, f, v) {
      FirstListing(store, name, repos, j, v);
    }
  }

  /** A listed version has a first repository listing it. */
  lemma {:induction false} FirstListing(store: Storage, name: Idents.PkgName, repos: seq<Repo>, j: int, v: Version)
    requires ListedIn(store, name, repos, j, v)
    ensures exists f | f <= j :: FirstListedFrom(store, name, repos, 0, f, v)
    decreases j
  {
    if exists k | 0 <= k < j :: ListedIn(store, name, repos, k, v) {
      var k :| 0 <= k < j && ListedIn(store, name, repos, k, v);
      FirstListing(store, name, repos, k, v);
    } else {
      assert FirstListedFrom(store, name, repos, 0, j, v);
    }
  }

  // ----- version order -----

  function SameVersion(v: Version): Version { v }

  function VersionLe(a: Version, b: Version): bool { !Less(b, a) }

  predicate StrictlyDescending(s: seq<Version>) {
    forall i, j | 0 <= i < j < |s| :: Less(s[j], s[i])
  }

  lemma VersionLeTotalPreorder()
    ensures TotalPreorder(VersionLe)
  {
    forall a: Version, b: Version, c: Version {
      LessIsStrictTotal(a, b, c);
    }
  }

  /** Sorting distinct versions and reversing them lists them newest first. */
  lemma NewestFirst(ks: seq<Version>)
    requires NoDup(ks)
    ensures StrictlyDescending(Reverse(SortByKey(ks, SameVersion, VersionLe)))
    ensures forall v :: v in Reverse(SortByKey(ks, SameVersion, VersionLe)) <==> v in ks
  {
    VersionLeTotalPreorder();
    var sorted := SortByKey(ks, SameVersion, VersionLe);
    SortByKeySorted(ks, SameVersion, VersionLe);
    BuildKeys.MultisetNoDup(ks, sorted);
    DistinctAscendingReversed(sorted);
    ReverseMultiset(sorted);
    SameMembers(Reverse(sorted), ks);
  }

  /** Distinct versions in ascending order, reversed, strictly descend. */
  lemma DistinctAscendingReversed(sorted: seq<Version>)
    requires NoDup(sorted) && SortedBy(sorted, SameVersion, VersionLe)
    ensures StrictlyDescending(Reverse(sorted))
  {
    var r := Reverse(sorted);
    forall i, j | 0 <= i < j < |r| ensures Less(r[j], r[i]) {
      var a, b := |r| - 1 - j, |r| - 1 - i;
      assert VersionLe(SameVersion(sorted[a]), SameVersion(sorted[b]));
      LessIsStrictTotal(sorted[a], sorted[b], sorted[a]);
    }
  }

  lemma SameMembers<T>(a: seq<T>, b: seq<T>)
    requires multiset(a) == multiset(b)
    ensures forall v :: v in a <==> v in b
  {
    forall v ensures v in a <==> v in b {
      assert v in a <==> v in multiset(a);
      assert v in b <==> v in multiset(b);
    }
  }

  // ----- builds of one version from a repository -----

  function IsSourceBuild(b: Idents.Ident): bool { Idents.IsSource(b) }

  function NotSourceBuild(b: Idents.Ident): bool { !Idents.IsSource(b) }

  /** `sort_by_key(|pkg| !pkg.is_source())` as written: the key is `false`
      for a source build, and `false` sorts first. */
  function SortedAsWritten(builds: seq<Idents.Ident>): seq<Idents.Ident> {
    SortByKey(builds, NotSourceBuild, BoolLe)
  }

  /** The order the comment beside the sort asks for: binary builds first,
      source builds last, each group in listing order. */
  function SourceLast(builds: seq<Idents.Ident>): seq<Idents.Ident> {
    SortByKey(builds, IsSourceBuild, BoolLe)
  }

  lemma {:induction false} RejectNotSource(s: seq<Idents.Ident>)
    ensures Reject(s, NotSourceBuild) == Filter(s, IsSourceBuild)
    ensures Reject(s, IsSourceBuild) == Filter(s, NotSourceBuild)
  {
    if s != [] {
      RejectNotSource(s[1..]);
    }
  }

  /** As written, the sort puts every source build before every binary
      build. */
  lemma AsWrittenSourcesFirst(builds: seq<Idents.Ident>)
    ensures SortedAsWritten(builds) == Filter(builds, IsSourceBuild) + Filter(builds, NotSourceBuild)
  {
    SortByBoolKeyPartition(builds, NotSourceBuild);
    RejectNotSource(builds);
  }

  /** One binary and one source build, listed in that order: as written, the
      source build comes out first. */
  lemma AsWrittenCounterexample()
    ensures var binary := Idents.Ident("pkg", Zero, Some(Digest("AAAAAAAA")));
            var source := Idents.Ident("pkg", Zero, Some(Source));
            SortedAsWritten([binary, source]) == [source, binary]
  {
    var binary := Idents.Ident("pkg", Zero, Some(Digest("AAAAAAAA")));
    var source := Idents.Ident("pkg", Zero, Some(Source));
    assert !NotSourceBuild(source) && NotSourceBuild(binary);
    assert [source][1..] == [];
    assert SortByKey([source], NotSourceBuild, BoolLe) == [source];
    assert [binary, source][1..] == [source];
    assert InsertByKey(binary, [source], NotSourceBuild, BoolLe) == [source, binary];
  }

  /** The corrected order keeps every build, puts the binary builds first
      and the source builds last, each group in listing order. */
  lemma SourceLastOrder(builds: seq<Idents.Ident>)
    ensures SourceLast(builds) == Filter(builds, NotSourceBuild) + Filter(builds, IsSourceBuild)
    ensures multiset(SourceLast(builds)) == multiset(builds)
    ensures forall i, j | 0 <= i < j < |builds| && Idents.IsSource(SourceLast(builds)[i]) ::
      Idents.IsSource(SourceLast(builds)[j])
  {
    SortByBoolKeyPartition(builds, IsSourceBuild);
    RejectNotSource(builds);
    SourcesAfterBinaries(Filter(builds, NotSourceBuild), Filter(builds, IsSourceBuild));
  }

  lemma SourcesAfterBinaries(a: seq<Idents.Ident>, b: seq<Idents.Ident>)
    requires forall i | 0 <= i < |a| :: NotSourceBuild(a[i])
    requires forall i | 0 <= i < |b| :: IsSourceBuild(b[i])
    ensures forall i, j | 0 <= i < j < |a + b| && Idents.IsSource((a + b)[i]) :: Idents.IsSource((a + b)[j])
  {
    assert forall k | 0 <= k < |a| :: (a + b)[k] == a[k] && !Idents.IsSource((a + b)[k]);
    forall i, j | 0 <= i < j < |a + b| && Idents.IsSource((a + b)[i]) ensures Idents.IsSource((a + b)[j]) {
      assert (a + b)[j] == b[j - |a|];
      assert IsSourceBuild(b[j - |a|]);
    }
  }

  /** What `RepositoryBuildIterator::new` produces: the builds listed for the
      version and the version's spec, `None` when the repository has no spec
      for it. A failed build listing wins over a failed spec read; a missing
      spec is not an error. The builds are put in the corrected, source-last
      order (`SourceLast`); the sort key as written puts the source builds
      first instead (`AsWrittenSourcesFirst`). */
  function NewBuildsOutcome(store: Storage, pkg: Idents.Ident, repo: Repo): (r: Result<(seq<Idents.Ident>, Option<Spec>), Error>)
    ensures store.listBuilds(repo, pkg).Err? ==> r == Err(store.listBuilds(repo, pkg).error)
    ensures store.listBuilds(repo, pkg).Ok? && store.readSpec(repo, pkg).Err? && !store.readSpec(repo, pkg).error.PackageNotFound? ==>
      r == Err(store.readSpec(repo, pkg).error)
    ensures r.Ok? ==> store.listBuilds(repo, pkg).Ok? && r.value.0 == SourceLast(store.listBuilds(repo, pkg).value)
    ensures r.Ok? ==> r.value.1 == (if store.readSpec(repo, pkg).Ok? then Some(store.readSpec(repo, pkg).value) else None)
  {
    match store.listBuilds(repo, pkg)
    case Err(e) => Err(e)
    case Ok(builds) =>
      match store.readSpec(repo, pkg)
      case Ok(spec) => Ok((SourceLast(builds), Some(spec)))
      case Err(e) =>
        if e.PackageNotFound? then Ok((SourceLast(builds), None)) else Err(e)
  }

  /** A spec published without a build takes the build of the ident it was
      listed under. */
  function WithListedBuild(spec: Spec, listed: Idents.Ident): (r: Spec)
    ensures spec.pkg.build.Some? ==> r == spec
    ensures spec.pkg.build.None? ==> r == spec.(pkg := Idents.WithBuild(spec.pkg, listed.build))
  {
    if spec.pkg.build.None? then spec.(pkg := Idents.WithBuild(spec.pkg, listed.build)) else spec
  }

  predicate SpecMissing(store: Storage, repo: Repo, b: Idents.Ident) {
    store.readSpec(repo, b).Err? && store.readSpec(repo, b).error.PackageNotFound?
  }

  /** `RepositoryBuildIterator::next` on the remaining builds: the builds
      whose spec is missing are passed over; the first build whose spec
      reads is yielded with its components (none when the package is
      missing), and the builds after it remain. */
  function ReadNext(store: Storage, repo: Repo, builds: seq<Idents.Ident>): (r: (Result<Option<Item>, Error>, seq<Idents.Ident>))
    ensures |r.1| <= |builds| && r.1 == builds[|builds| - |r.1|..]
    ensures r.0 == Ok(None) ==> r.1 == [] && forall k | 0 <= k < |builds| :: SpecMissing(store, repo, builds[k])
    ensures r.0 != Ok(None) ==> |r.1| < |builds|
    ensures r.0 != Ok(None) ==>
      var k := |builds| - |r.1| - 1;
      && (forall j | 0 <= j < k :: SpecMissing(store, repo, builds[j]))
      && !SpecMissing(store, repo, builds[k])
      && (store.readSpec(repo, builds[k]).Err? ==> r.0 == Err(store.readSpec(repo, builds[k]).error))
    ensures r.0.Ok? && r.0.value.Some? ==>
      var k := |builds| - |r.1| - 1;
      && store.readSpec(repo, builds[k]).Ok?
      && r.0.value.value.0 == WithListedBuild(store.readSpec(repo, builds[k]).value, builds[k])
      && r.0.value.value.1.repo == repo
      && r.0.value.value.1.components ==
           (if store.getPackage(repo, builds[k]).Ok? then store.getPackage(repo, builds[k]).value else map[])
    ensures r.0 != Ok(None) ==>
      var k := |builds| - |r.1| - 1;
      store.readSpec(repo, builds[k]).Ok? ==>
        (r.0.Err? <==> store.getPackage(repo, builds[k]).Err? && !store.getPackage(repo, builds[k]).error.PackageNotFound?)
    decreases |builds|
  {
    if builds == [] then (Ok(None), [])
    else
      var b := builds[0];
      match store.readSpec(repo, b)
      case Err(e) =>
        if e.PackageNotFound? then
          var r := ReadNext(store, repo, builds[1..]);
          assert forall j | 1 <= j < |builds| :: builds[1..][j - 1] == builds[j];
          r
        else (Err(e), builds[1..])
      case Ok(spec) =>
        match store.getPackage(repo, b)
        case Ok(components) => (Ok(Some((WithListedBuild(spec, b), Repository(repo, components)))), builds[1..])
        case Err(e) =>
          if e.PackageNotFound? then (Ok(Some((WithListedBuild(spec, b), Repository(repo, map[])))), builds[1..])
          else (Err(e), builds[1..])
  }

  /** `RepositoryBuildIterator`: the builds of one version still to be read
      from a repository, and that version's spec. */
  class RepositoryBuildIterator {
    const repo: Repo
    var builds: seq<Idents.Ident>
    const spec: Option<Spec>

    constructor (repo: Repo, builds: seq<Idents.Ident>, spec: Option<Spec>)
      ensures this.repo == repo && this.builds == builds && this.spec == spec
    {
      this.repo := repo;
      this.builds := builds;
      this.spec := spec;
    }

    function Len(): (r: nat)
      reads this
      ensures r == |builds|
    {
      |builds|
    }

    function IsEmpty(): (r: bool)
      reads this
      ensures r <==> Len() == 0
    {
      builds == []
    }

    /** `next`: pops builds until one whose spec can be read, passing over
        the builds the repository has no spec for. */
    method Next(store: Storage) returns (r: Result<Option<Item>, Error>)
      modifies this
      ensures (r, builds) == ReadNext(store, repo, old(builds))
    {
      while true
        invariant ReadNext(store, repo, builds) == ReadNext(store, repo, old(builds))
        decreases |builds|
      {
        if builds == [] {
          return Ok(None);
        }
        var build := builds[0];
        builds := builds[1..];
        var read := store.readSpec(repo, build);
        if read.Err? {
          if read.error.PackageNotFound? {
            continue;
          }
          return Err(read.error);
        }
        var components: Components;
        var got := store.getPackage(repo, build);
        if got.Ok? {
          components := got.value;
        } else if got.error.PackageNotFound? {
          components := map[];
        } else {
          return Err(got.error);
        }
        var spec := read.value;
        if spec.pkg.build.None? {
          spec := spec.(pkg := Idents.WithBuild(spec.pkg, build.build));
        }
        return Ok(Some((spec, Repository(repo, components))));
      }
    }
  }

  /** `RepositoryBuildIterator::new`: lists the builds and reads the
      version's spec, then orders the builds with `SourceLast`, the
      corrected order, where the source sorts them with `SortedAsWritten`. */
  method NewRepositoryBuildIterator(store: Storage, pkg: Idents.Ident, repo: Repo)
    returns (r: Result<RepositoryBuildIterator, Error>)
    ensures NewBuildsOutcome(store, pkg, repo).Err? ==> r.Err? && r.error == NewBuildsOutcome(store, pkg, repo).error
    ensures NewBuildsOutcome(store, pkg, repo).Ok? ==>
      && r.Ok? && fresh(r.value)
      && r.value.repo == repo
      && r.value.builds == NewBuildsOutcome(store, pkg, repo).value.0
      && r.value.spec == NewBuildsOutcome(store, pkg, repo).value.1
  {
    var listed := store.listBuilds(repo, pkg);
    var read := store.readSpec(repo, pkg);
    if listed.Err? {
      return Err(listed.error);
    }
    var spec: Option<Spec>;
    if read.Ok? {
      spec := Some(read.value);
    } else if read.error.PackageNotFound? {
      spec := None;
    } else {
      return Err(read.error);
    }
    var it := new RepositoryBuildIterator(repo, SourceLast(listed.value), spec);
    r := Ok(it);
  }

  /** Draining a repository build iterator: every build it yields, in order,
      and what remains of its queue. A failed read ends the drain with that
      error and drops what was gathered. */
  function Drain(store: Storage, repo: Repo, builds: seq<Idents.Ident>): (r: (Result<seq<Item>, Error>, seq<Idents.Ident>))
    ensures r.0.Ok? ==> r.1 == []
    ensures r.0.Ok? ==> |r.0.value| <= |builds|
    ensures r.0.Ok? ==> forall i | 0 <= i < |r.0.value| :: r.0.value[i].1.repo == repo
    decreases |builds|
  {
    var (first, rest) := ReadNext(store, repo, builds);
    match first
    case Err(e) => (Err(e), rest)
    case Ok(None) => (Ok([]), rest)
    case Ok(Some(item)) =>
      var (more, left) := Drain(store, repo, rest);
      match more
      case Err(e) => (Err(e), left)
      case Ok(items) => (Ok([item] + items), left)
  }

  /** Builds already sorted, yielded front to back. */
  class SortedBuildIterator {
    /** The source's version spec, which `version_spec` hands back. */
    const versionSpec: Option<Spec>
    var builds: seq<Item>

    constructor (versionSpec: Option<Spec>, builds: seq<Item>)
      ensures this.versionSpec == versionSpec && this.builds == builds
    {
      this.versionSpec := versionSpec;
      this.builds := builds;
    }

    function Len(): (r: nat)
      reads this
      ensures r == |builds|
    {
      |builds|
    }

    function IsEmpty(): (r: bool)
      reads this
      ensures r <==> Len() == 0
    {
      builds == []
    }

    /** `next`: the front of the queue. */
    method Next() returns (r: Option<Item>)
      modifies this
      ensures old(builds) == [] ==> r.None? && builds == []
      ensures old(builds) != [] ==> r == Some(old(builds)[0]) && [old(builds)[0]] + builds == old(builds)
    {
      if builds == [] {
        r := None;
      } else {
        r := Some(builds[0]);
        builds := builds[1..];
      }
    }

    /** `sort_by_build_option_values`: the two passes pick the key names
        and order them, and the builds are sorted by their keys and then
        reversed, highest key first. */
    method SortByBuildOptionValues<K>(resolve: BuildKeys.Resolver, order: seq<string>,
                                      makeKey: (Idents.Ident, seq<string>, BuildKeys.OptionMap) -> K, le: (K, K) -> bool)
      modifies this
      ensures SortedByOptionValues(old(builds), resolve, order, makeKey, le, builds)
    {
      var nonSrc, nameValues, changes := BuildKeys.CountChanges(builds, resolve);
      var keyNames := BuildKeys.KeyEntryNames(changes, nonSrc);
      var names := BuildKeys.OrderedNames(order, keyNames);
      BuildKeys.KeyNamesFromChanges(builds, resolve, changes, nonSrc);
      BuildKeys.OrderedNamesShape(order, keyNames);
      assert (set n | n in keyNames) == BuildKeys.KeyNames(builds, resolve);
      ghost var before := builds;
      builds := Reverse(SortByKey(builds, BuildKeys.BuildKeyOf(names, nameValues, makeKey), le));
      assert BuildKeys.IsOrderedNames(order, BuildKeys.KeyNames(before, resolve), names);
    }
  }

  /** The builds sorted by option values: for the ordered key names (which
      the key names and the configured order fix), a reversed stable sort by
      each build's key. */
  ghost predicate SortedByOptionValues<K>(items: seq<Item>, resolve: BuildKeys.Resolver, order: seq<string>,
                                          makeKey: (Idents.Ident, seq<string>, BuildKeys.OptionMap) -> K,
                                          le: (K, K) -> bool, sorted: seq<Item>) {
    exists names :: BuildKeys.IsOrderedNames(order, BuildKeys.KeyNames(items, resolve), names)
      && sorted == Reverse(SortByKey(items, BuildKeys.BuildKeyOf(names, BuildKeys.NameValuesUpTo(items, resolve, |items|), makeKey), le))
  }

  /** The sorted builds are the drained builds, highest key first. */
  lemma SortedByOptionValuesOrder<K(!new)>(items: seq<Item>, resolve: BuildKeys.Resolver, order: seq<string>,
                                           makeKey: (Idents.Ident, seq<string>, BuildKeys.OptionMap) -> K,
                                           le: (K, K) -> bool, sorted: seq<Item>)
    requires TotalPreorder(le)
    requires SortedByOptionValues(items, resolve, order, makeKey, le, sorted)
    ensures multiset(sorted) == multiset(items)
    ensures exists names ::
      && BuildKeys.IsOrderedNames(order, BuildKeys.KeyNames(items, resolve), names)
      && forall i, j | 0 <= i < j < |sorted| ::
           le(BuildKeys.BuildKeyOf(names, BuildKeys.NameValuesUpTo(items, resolve, |items|), makeKey)(sorted[j]),
              BuildKeys.BuildKeyOf(names, BuildKeys.NameValuesUpTo(items, resolve, |items|), makeKey)(sorted[i]))
  {
    var names :| BuildKeys.IsOrderedNames(order, BuildKeys.KeyNames(items, resolve), names)
      && sorted == Reverse(SortByKey(items, BuildKeys.BuildKeyOf(names, BuildKeys.NameValuesUpTo(items, resolve, |items|), makeKey), le));
    BuildKeys.SortReversedDescending(items, BuildKeys.BuildKeyOf(names, BuildKeys.NameValuesUpTo(items, resolve, |items|), makeKey), le);
  }

  /** A shared build iterator as the package iterator hands it out. */
  datatype BuildHandle = FromRepository(repoBuilds: RepositoryBuildIterator) | FromSorted(sorted: SortedBuildIterator) | EmptyBuilds

  function HandleObjects(h: BuildHandle): set<object> {
    match h
    case FromRepository(it) => {it}
    case FromSorted(it) => {it}
    case EmptyBuilds => {}
  }

  /** `is_empty` of the wrapped iterator; the empty iterator always is. */
  function HandleIsEmpty(h: BuildHandle): (r: bool)
    reads HandleObjects(h)
    ensures h.EmptyBuilds? ==> r
    ensures r <==> HandleLen(h) == 0
  {
    match h
    case FromRepository(it) => it.IsEmpty()
    case FromSorted(it) => it.IsEmpty()
    case EmptyBuilds => true
  }

  function HandleLen(h: BuildHandle): (r: nat)
    reads HandleObjects(h)
    ensures h.FromRepository? ==> r == |h.repoBuilds.builds|
    ensures h.FromSorted? ==> r == |h.sorted.builds|
    ensures h.EmptyBuilds? ==> r == 0
  {
    match h
    case FromRepository(it) => it.Len()
    case FromSorted(it) => it.Len()
    case EmptyBuilds => 0
  }

  /** `version_spec` of the wrapped iterator. */
  function HandleVersionSpec(h: BuildHandle): Option<Spec> {
    match h
    case FromRepository(it) => it.spec
    case FromSorted(it) => it.versionSpec
    case EmptyBuilds => None
  }

  /** `items` put in front of the outcome of a drain. */
  function Prepend(items: seq<Item>, d: (Result<seq<Item>, Error>, seq<Idents.Ident>)): (Result<seq<Item>, Error>, seq<Idents.Ident>) {
    if d.0.Err? then d else (Ok(items + d.0.value), d.1)
  }

  /** After `items` were drained from `orig`, draining what is left of the
      queue completes the drain of the whole. */
  ghost predicate DrainedSoFar(store: Storage, repo: Repo, orig: seq<Idents.Ident>, items: seq<Item>, builds: seq<Idents.Ident>) {
    Drain(store, repo, orig) == Prepend(items, Drain(store, repo, builds))
  }

  /** A read item is the first of the drain. */
  lemma DrainCons(store: Storage, repo: Repo, builds: seq<Idents.Ident>, item: Item, rest: seq<Idents.Ident>)
    requires ReadNext(store, repo, builds) == (Ok(Some(item)), rest)
    ensures Drain(store, repo, builds) == Prepend([item], Drain(store, repo, rest))
  {
  }

  lemma PrependTwice(items: seq<Item>, item: Item, d: (Result<seq<Item>, Error>, seq<Idents.Ident>))
    ensures Prepend(items, Prepend([item], d)) == Prepend(items + [item], d)
  {
    if d.0.Ok? {
      assert items + ([item] + d.0.value) == (items + [item]) + d.0.value;
    }
  }

  lemma DrainStep(store: Storage, repo: Repo, orig: seq<Idents.Ident>, items: seq<Item>,
                  builds: seq<Idents.Ident>, item: Item, rest: seq<Idents.Ident>)
    requires DrainedSoFar(store, repo, orig, items, builds)
    requires ReadNext(store, repo, builds) == (Ok(Some(item)), rest)
    ensures DrainedSoFar(store, repo, orig, items + [item], rest)
  {
    DrainCons(store, repo, builds, item, rest);
    PrependTwice(items, item, Drain(store, repo, rest));
  }

  /** The drain loop over a repository build iterator. */
  method DrainRepository(store: Storage, it: RepositoryBuildIterator) returns (r: Result<seq<Item>, Error>)
    modifies it
    ensures (r, it.builds) == Drain(store, it.repo, old(it.builds))
  {
    var items: seq<Item> := [];
    assert DrainedSoFar(store, it.repo, old(it.builds), items, it.builds) by {
      var d := Drain(store, it.repo, it.builds);
      assert d.0.Ok? ==> items + d.0.value == d.0.value;
      assert Prepend(items, d) == d;
    }
    while true
      invariant DrainedSoFar(store, it.repo, old(it.builds), items, it.builds)
      decreases |it.builds|
    {
      ghost var before := it.builds;
      var next := it.Next(store);
      if next.Err? {
        return Err(next.error);
      }
      if next.value.None? {
        assert Drain(store, it.repo, before) == (Ok([]), []);
        assert items + [] == items;
        return Ok(items);
      }
      DrainStep(store, it.repo, old(it.builds), items, before, next.value.value, it.builds);
      items := items + [next.value.value];
    }
  }

  /** The drain loop over a sorted build iterator. */
  method DrainSorted(it: SortedBuildIterator) returns (items: seq<Item>)
    modifies it
    ensures items == old(it.builds) && it.builds == []
  {
    items := [];
    while true
      invariant items + it.builds == old(it.builds)
      decreases |it.builds|
    {
      var next := it.Next();
      if next.None? {
        return;
      }
      items := items + [next.value];
    }
  }

  /** `SortedBuildIterator::new`: drains the source, then sorts what it
      yielded by option values. */
  method NewSortedBuildIterator<K>(store: Storage, source: BuildHandle, resolve: BuildKeys.Resolver, order: seq<string>,
                                   makeKey: (Idents.Ident, seq<string>, BuildKeys.OptionMap) -> K, le: (K, K) -> bool)
    returns (r: Result<SortedBuildIterator, Error>)
    modifies HandleObjects(source)
    ensures source.FromRepository? ==>
      var d := Drain(store, source.repoBuilds.repo, old(source.repoBuilds.builds));
      && source.repoBuilds.builds == d.1
      && (d.0.Err? ==> r == Err(d.0.error))
      && (d.0.Ok? ==> r.Ok? && fresh(r.value)
                      && SortedByOptionValues(d.0.value, resolve, order, makeKey, le, r.value.builds))
    ensures source.FromSorted? ==>
      && source.sorted.builds == [] && r.Ok? && fresh(r.value)
      && SortedByOptionValues(old(source.sorted.builds), resolve, order, makeKey, le, r.value.builds)
    ensures source.EmptyBuilds? ==> r.Ok? && fresh(r.value) && r.value.builds == []
    ensures r.Ok? ==> r.value.versionSpec == HandleVersionSpec(source)
  {
    var items: seq<Item> := [];
    match source {
      case FromRepository(it) =>
        var drained := DrainRepository(store, it);
        if drained.Err? {
          return Err(drained.error);
        }
        items := drained.value;
      case FromSorted(it) =>
        items := DrainSorted(it);
      case EmptyBuilds =>
    }
    var sorted := new SortedBuildIterator(HandleVersionSpec(source), items);
    sorted.SortByBuildOptionValues(resolve, order, makeKey, le);
    r := Ok(sorted);
  }

  const VERSION_NOT_IN_MAP: string := "version not found in version_map"

  /** The ident `next` offers for version `v` of the package. */
  function VersionIdent(name: Idents.PkgName, v: Version): Idents.Ident {
    Idents.WithVersion(Idents.New(name), v)
  }

  /** `next` passes over version `v`: it is mapped to a repository, and
      either it has a build iterator with no builds left (`left` maps each
      version that has an iterator to the builds it has left), or it has
      none yet and making one fails with an invalid spec or lists no builds. */
  predicate PassesOver(store: Storage, name: Idents.PkgName, vm: map<Version, Repo>,
                       left: map<Version, nat>, v: Version)
  {
    PassesOverWith(store, name, vm, LeftAt(left, v), v)
  }

  /** What `left` records for `v`, if anything. */
  function LeftAt(left: map<Version, nat>, v: Version): Option<nat> {
    if v in left then Some(left[v]) else None
  }

  /** The builds version `w`'s iterator in `builds` has left, if it has
      one. */
  function LeftIn(builds: map<Version, BuildHandle>, w: Version): Option<nat>
    reads if w in builds then HandleObjects(builds[w]) else {}
  {
    if w in builds then Some(HandleLen(builds[w])) else None
  }

  /** `PassesOver` for one version, given the builds its iterator has left,
      or `None` when it has no iterator yet. */
  predicate PassesOverWith(store: Storage, name: Idents.PkgName, vm: map<Version, Repo>, left: Option<nat>, v: Version) {
    && v in vm
    && if left.Some? then left.value == 0
       else
         var made := NewBuildsOutcome(store, VersionIdent(name, v), vm[v]);
         (made.Err? && made.error.InvalidPackageSpec?) || (made.Ok? && made.value.0 == [])
  }

  /** The error `next` returns when it stops at version `v`, if any: the
      version is missing from the map, or making its build iterator fails
      with an error other than an invalid spec. */
  function StopError(store: Storage, name: Idents.PkgName, vm: map<Version, Repo>,
                     left: map<Version, nat>, v: Version): Option<Error>
  {
    StopErrorWith(store, name, vm, LeftAt(left, v), v)
  }

  function StopErrorWith(store: Storage, name: Idents.PkgName, vm: map<Version, Repo>,
                         left: Option<nat>, v: Version): Option<Error>
  {
    if v !in vm then Some(Other(VERSION_NOT_IN_MAP))
    else if left.Some? then None
    else
      var made := NewBuildsOutcome(store, VersionIdent(name, v), vm[v]);
      if made.Err? && !made.error.InvalidPackageSpec? then Some(made.error) else None
  }

  /** The versions `next` considers in turn: the active one, then the
      queue. */
  function Candidates(active: Option<Version>, queue: seq<Version>): seq<Version> {
    (if active.Some? then [active.value] else []) + queue
  }

  /** How many of the candidates `next` passes over before it stops at one;
      all of them when it ends with `None`. */
  function Stop(store: Storage, name: Idents.PkgName, vm: map<Version, Repo>,
                left: map<Version, nat>, cands: seq<Version>): (k: nat)
    ensures k <= |cands|
    decreases |cands|
  {
    if cands == [] || !PassesOver(store, name, vm, left, cands[0]) then 0
    else 1 + Stop(store, name, vm, left, cands[1..])
  }

  /** The queue `start` sets up: the mapped versions, newest first. Only
      one sequence lists them so (DescendingUnique), whatever order the
      map's keys were collected in. */
  ghost function StartQueue(vm: map<Version, Repo>): (r: seq<Version>)
    ensures StrictlyDescending(r) && NoDup(r)
    ensures forall v :: v in r <==> v in vm
  {
    var ks := Listing(vm.Keys);
    NewestFirst(ks);
    var q := Reverse(SortByKey(ks, SameVersion, VersionLe));
    DescendingNoDup(q);
    q
  }

  /** Some listing of a set, each element once. */
  ghost function Listing(s: set<Version>): (r: seq<Version>)
    ensures NoDup(r)
    ensures forall v :: v in r <==> v in s
    decreases |s|
  {
    if s == {} then []
    else
      var x :| x in s;
      var rest := Listing(s - {x});
      assert forall j | 0 <= j < |rest| :: ([x] + rest)[j + 1] == rest[j];
      [x] + rest
  }

  /** Two strictly descending sequences with the same elements are equal. */
  lemma {:induction false} DescendingUnique(a: seq<Version>, b: seq<Version>)
    requires StrictlyDescending(a) && StrictlyDescending(b)
    requires forall v :: v in a <==> v in b
    ensures a == b
    decreases |a|
  {
    if b != [] {
      assert b[0] in b;
    }
    if a != [] {
      assert a[0] in b && b != [];
      assert b[0] in a;
      var i :| 0 <= i < |a| && a[i] == b[0];
      var j :| 0 <= j < |b| && b[j] == a[0];
      if i > 0 && j > 0 {
        LessIsStrictTotal(a[0], b[0], a[0]);
        assert false;
      }
      assert a[0] == b[0];
      DescendingNoDup(a);
      DescendingNoDup(b);
      assert a == [a[0]] + a[1..] && b == [b[0]] + b[1..];
      forall v ensures v in a[1..] <==> v in b[1..] {
        if v in a[1..] {
          var k :| 1 <= k < |a| && a[k] == v;
          assert v in a && v != a[0];
        }
        if v in b[1..] {
          var k :| 1 <= k < |b| && b[k] == v;
          assert v in b && v != b[0];
        }
      }
      DescendingUnique(a[1..], b[1..]);
      assert a == [a[0]] + a[1..] && b == [b[0]] + b[1..];
    }
  }

  lemma DescendingNoDup(s: seq<Version>)
    requires StrictlyDescending(s)
    ensures NoDup(s)
  {
    forall i, j | 0 <= i < j < |s| ensures s[i] != s[j] {
      LessIsStrictTotal(s[i], s[i], s[i]);
    }
  }

  lemma CandidatesNoDup(active: Option<Version>, queue: seq<Version>)
    requires NoDup(queue)
    requires active.Some? ==> active.value !in queue
    ensures NoDup(Candidates(active, queue))
  {
    var c := Candidates(active, queue);
    if active.Some? {
      forall i, j | 0 <= i < j < |c| ensures c[i] != c[j] {
        assert c[j] == queue[j - 1];
        if i > 0 {
          assert c[i] == queue[i - 1];
        }
      }
    }
  }

  /** `RepositoryPackageIterator`: the versions of one package across a list
      of repositories, newest first, each with its build iterator. */
  class RepositoryPackageIterator {
    const packageName: Idents.PkgName
    const repos: seq<Repo>
    var versions: Option<VersionIterator>
    var versionMap: map<Version, Repo>
    var buildsMap: map<Version, BuildHandle>
    var activeVersion: Option<Version>

    /** Every version still to be offered, and the active one, has a
        repository in the version map, and each of them comes once; before
        the start there is no active version. */
    predicate Valid()
      reads this
    {
      QueueValid(versions, versionMap, activeVersion)
    }

    constructor (packageName: Idents.PkgName, repos: seq<Repo>)
      ensures this.packageName == packageName && this.repos == repos
      ensures versions.None? && versionMap == map[] && buildsMap == map[] && activeVersion.None?
      ensures Valid()
    {
      this.packageName := packageName;
      this.repos := repos;
      versions := None;
      versionMap := map[];
      buildsMap := map[];
      activeVersion := None;
    }

    /** `start`: builds the version map and queues its versions newest
        first. On an error nothing is assigned. */
    method Start(store: Storage) returns (r: Result<(), Error>)
      modifies this
      ensures VersionMapResult(store, packageName, repos, if r.Ok? then Ok(versionMap) else Err(r.error))
      ensures r.Ok? ==>
        && versions.Some? && StrictlyDescending(versions.value.versions)
        && forall v :: v in versions.value.versions <==> v in versionMap
      ensures r.Err? ==> versions == old(versions) && versionMap == old(versionMap)
      ensures buildsMap == old(buildsMap) && activeVersion == old(activeVersion)
    {
      var built := BuildVersionMap(store, packageName, repos);
      if built.Err? {
        r := Err(built.error);
        assert (if r.Ok? then Ok(versionMap) else Err(r.error)) == built;
        return;
      }
      versionMap := built.value;
      assert Ok(versionMap) == built;
      var ks := SetToSeq(versionMap.Keys);
      NewestFirst(ks);
      versions := Some(VersionIterator(Reverse(SortByKey(ks, SameVersion, VersionLe))));
      DescendingNoDup(versions.value.versions);
      r := Ok(());
    }

    /** The builds each version's iterator has left, for the versions
        that have one. */
    ghost function BuildsLeft(): (left: map<Version, nat>)
      reads this, set v, o | v in buildsMap && o in HandleObjects(buildsMap[v]) :: o
    {
      map v | v in buildsMap :: HandleLen(buildsMap[v])
    }

    /** `next`: the active version and its build iterator, moving on to the
        next version when the active one has none or its specs are invalid;
        `None` once every version was offered. When `start` has not run yet
        it runs first, and its queue is the one `Advance` walks. */
    method Next(store: Storage) returns (r: Result<Option<(Idents.Ident, BuildHandle)>, Error>)
      requires Valid()
      modifies this
      ensures Valid()
      ensures versions.None? ==> r.Err? && VersionMapResult(store, packageName, repos, Err(r.error))
      ensures r.Ok? ==> versions.Some?
      ensures old(versions).Some? && old(activeVersion).None? && old(versions).value.versions == [] ==> r == Ok(None)
      ensures versions.Some? ==>
        Advanced(store, Candidates(old(activeVersion),
                                   if old(versions).Some? then old(versions).value.versions else StartQueue(versionMap)),
                 old(BuildsLeft()), r)
      ensures r.Ok? && r.value.Some? ==> Offered(r.value.value)
      ensures KeepsBuilds(old(buildsMap), buildsMap)
      ensures old(versions).Some? ==> versions.Some? && IsSuffix(versions.value.versions, old(versions).value.versions)
    {
      ghost var left := BuildsLeft();
      forall w ensures LeftAt(left, w) == LeftIn(buildsMap, w) {
      }
      if versions.None? {
        var started := Start(store);
        if started.Err? {
          return Err(started.error);
        }
        forall w ensures LeftAt(left, w) == LeftIn(buildsMap, w) {
        }
        DescendingUnique(versions.value.versions, StartQueue(versionMap));
      }
      r := Advance(store, left);
    }

    /** What `next` leaves after walking the candidates with `left` builds
        in each iterator: it passes over the first `k` of them; it ends with
        `None` and no active version when it passes over all; otherwise the
        `k`-th is active, the queue holds the candidates after it, and the
        result is its stop error or an offer of its ident. */
    ghost predicate Advanced(store: Storage, cands: seq<Version>, left: map<Version, nat>,
                             r: Result<Option<(Idents.Ident, BuildHandle)>, Error>)
      reads this
    {
      var k := Stop(store, packageName, versionMap, left, cands);
      && versions.Some?
      && (r == Ok(None) <==> k == |cands|)
      && (k == |cands| ==> activeVersion.None? && versions.value.versions == [])
      && (k < |cands| ==> activeVersion == Some(cands[k]) && versions.value.versions == cands[k + 1..])
      && (k < |cands| && StopError(store, packageName, versionMap, left, cands[k]).Some? ==>
            r == Err(StopError(store, packageName, versionMap, left, cands[k]).value))
      && (k < |cands| && StopError(store, packageName, versionMap, left, cands[k]).None? ==>
            r.Ok? && r.value.Some? && r.value.value.0 == VersionIdent(packageName, cands[k]))
    }

    /** Passing over `v` and then walking `tail` is walking `[v] + tail`. */
    lemma AdvancedPass(store: Storage, v: Version, tail: seq<Version>, left: map<Version, nat>,
                       r: Result<Option<(Idents.Ident, BuildHandle)>, Error>)
      requires PassesOver(store, packageName, versionMap, left, v)
      requires Advanced(store, tail, left, r)
      ensures Advanced(store, [v] + tail, left, r)
    {
      assert ([v] + tail)[1..] == tail;
      var k := Stop(store, packageName, versionMap, left, tail);
      assert Stop(store, packageName, versionMap, left, [v] + tail) == k + 1;
      if k < |tail| {
        assert ([v] + tail)[k + 1] == tail[k];
        assert ([v] + tail)[k + 2..] == tail[k + 1..];
      }
    }

    /** With no candidate left, `next` ends with `None`. */
    lemma AdvancedNone(store: Storage, left: map<Version, nat>)
      requires versions.Some? && versions.value.versions == [] && activeVersion.None?
      ensures Advanced(store, [], left, Ok(None))
    {
    }

    /** Stopping at the first candidate `v`: it is active, the queue is the
        rest, and the result is its stop error or an offer of its ident. */
    lemma AdvancedStop(store: Storage, v: Version, tail: seq<Version>, left: map<Version, nat>,
                       r: Result<Option<(Idents.Ident, BuildHandle)>, Error>)
      requires !PassesOver(store, packageName, versionMap, left, v)
      requires versions == Some(VersionIterator(tail)) && activeVersion == Some(v)
      requires StopError(store, packageName, versionMap, left, v).Some? ==>
        r == Err(StopError(store, packageName, versionMap, left, v).value)
      requires StopError(store, packageName, versionMap, left, v).None? ==>
        r.Ok? && r.value.Some? && r.value.value.0 == VersionIdent(packageName, v)
      ensures Advanced(store, [v] + tail, left, r)
    {
      assert ([v] + tail)[0] == v && ([v] + tail)[1..] == tail;
    }

    /** With no active version, the head of the queue becomes the active
        one; the candidates, active version first, stay the same. */
    method Activate()
      requires Valid() && versions.Some?
      modifies this
      ensures Valid() && versions.Some?
      ensures buildsMap == old(buildsMap) && versionMap == old(versionMap)
      ensures old(activeVersion).Some? ==> activeVersion == old(activeVersion) && versions == old(versions)
      ensures activeVersion.None? ==> versions.value.versions == []
      ensures Candidates(activeVersion, versions.value.versions) == Candidates(old(activeVersion), old(versions).value.versions)
      ensures IsSuffix(versions.value.versions, old(versions).value.versions)
      ensures forall w :: LeftIn(buildsMap, w) == old(LeftIn(buildsMap, w))
    {
      if activeVersion.None? {
        ActivateKeepsValid(versions.value, versionMap);
        NextVersionCandidates(versions.value);
        var (next, rest) := NextVersion(versions.value);
        activeVersion := next;
        versions := Some(rest);
      } else {
        assert versions.value.versions[0..] == versions.value.versions;
      }
    }

    /** `next` once started. A version passed over is cleared and `next`
        calls itself again, as the source does. `left` is the builds each
        candidate's iterator had left when the walk began. */
    method Advance(store: Storage, ghost left: map<Version, nat>) returns (r: Result<Option<(Idents.Ident, BuildHandle)>, Error>)
      requires Valid() && versions.Some?
      requires forall w | w in Candidates(activeVersion, versions.value.versions) :: LeftAt(left, w) == LeftIn(buildsMap, w)
      modifies this
      ensures Valid() && versionMap == old(versionMap)
      ensures Advanced(store, Candidates(old(activeVersion), old(versions).value.versions), left, r)
      ensures r.Ok? && r.value.Some? ==> Offered(r.value.value)
      ensures KeepsBuilds(old(buildsMap), buildsMap)
      ensures versions.Some? && IsSuffix(versions.value.versions, old(versions).value.versions)
      decreases |versions.value.versions| + (if activeVersion.Some? then 1 else 0), 1
    {
      Activate();
      if activeVersion.None? {
        AdvancedNone(store, left);
        return Ok(None);
      }
      ghost var mid := versions.value.versions;
      r := AdvanceActive(store, left);
      SuffixTrans(versions.value.versions, mid, old(versions).value.versions);
    }

    /** `next` at the active version: it offers it, stops at it with an
        error, or passes over it and calls itself again on the queue. */
    method AdvanceActive(store: Storage, ghost left: map<Version, nat>) returns (r: Result<Option<(Idents.Ident, BuildHandle)>, Error>)
      requires Valid() && versions.Some? && activeVersion.Some?
      requires forall w | w in Candidates(activeVersion, versions.value.versions) :: LeftAt(left, w) == LeftIn(buildsMap, w)
      modifies this
      ensures Valid() && versionMap == old(versionMap)
      ensures Advanced(store, Candidates(old(activeVersion), old(versions).value.versions), left, r)
      ensures r.Ok? && r.value.Some? ==> Offered(r.value.value)
      ensures KeepsBuilds(old(buildsMap), buildsMap)
      ensures versions.Some? && IsSuffix(versions.value.versions, old(versions).value.versions)
      decreases |versions.value.versions| + 1, 0
    {
      ghost var v := activeVersion.value;
      ghost var tail := versions.value.versions;
      CandidatesNoDup(activeVersion, tail);
      assert Candidates(activeVersion, tail) == [v] + tail;
      assert LeftIn(buildsMap, v) == LeftAt(left, v);
      var outcome := OfferActive(store);
      if outcome.Some? {
        r := outcome.value;
        AdvancedStop(store, v, tail, left, r);
        assert tail[0..] == tail;
        return;
      }
      assert PassesOver(store, packageName, versionMap, left, v);
      forall w | w in tail ensures LeftAt(left, w) == LeftIn(buildsMap, w) {
        assert w in [v] + tail && w != v;
      }
      // A snapshot of the builds between the two steps keeps the proof
      // after the recursive call about values.
      ghost var mid := buildsMap;
      assert Candidates(None, tail) == tail;
      r := Advance(store, left);
      AdvancedPass(store, v, tail, left, r);
      KeepsBuildsTrans(old(buildsMap), mid, buildsMap);
    }

    /** The item yields the active version with its non-empty build
        iterator, the one recorded for that version. */
    predicate Offered(item: (Idents.Ident, BuildHandle))
      reads this, HandleObjects(item.1)
    {
      && activeVersion == Some(item.0.version)
      && item.0 == Idents.WithVersion(Idents.New(packageName), item.0.version)
      && item.0.version in buildsMap && buildsMap[item.0.version] == item.1
      && !HandleIsEmpty(item.1)
    }

    /** One attempt at the active version: the item to yield, an error, or
        `None` when the version is passed over (and no longer active). Only
        the active version may gain a build iterator, the one made from the
        repository that lists it. */
    method OfferActive(store: Storage) returns (outcome: Option<Result<Option<(Idents.Ident, BuildHandle)>, Error>>)
      requires activeVersion.Some? && Valid()
      modifies this
      ensures versions == old(versions) && versionMap == old(versionMap)
      ensures Valid()
      ensures outcome.None? <==> PassesOverWith(store, packageName, old(versionMap), old(LeftIn(buildsMap, activeVersion.value)), old(activeVersion.value))
      ensures outcome.None? ==> activeVersion.None?
      ensures outcome.Some? ==> activeVersion == old(activeVersion)
      ensures var e := StopErrorWith(store, packageName, old(versionMap), old(LeftIn(buildsMap, activeVersion.value)), old(activeVersion.value));
        e.Some? ==> outcome == Some(Err(e.value))
      ensures var e := StopErrorWith(store, packageName, old(versionMap), old(LeftIn(buildsMap, activeVersion.value)), old(activeVersion.value));
        e.None? && outcome.Some? ==>
          && outcome.value.Ok? && outcome.value.value.Some?
          && outcome.value.value.value.0 == VersionIdent(packageName, old(activeVersion.value))
          && Offered(outcome.value.value.value)
      ensures KeepsBuilds(old(buildsMap), buildsMap)
      ensures forall w | w in buildsMap && w !in old(buildsMap) :: w == old(activeVersion.value)
      ensures forall w | w != old(activeVersion.value) :: LeftIn(buildsMap, w) == old(LeftIn(buildsMap, w))
      ensures var v := old(activeVersion.value);
        v !in old(buildsMap) && v in versionMap && NewBuildsOutcome(store, VersionIdent(packageName, v), versionMap[v]).Ok? ==>
          var made := NewBuildsOutcome(store, VersionIdent(packageName, v), versionMap[v]).value;
          && v in buildsMap && buildsMap[v].FromRepository? && fresh(buildsMap[v].repoBuilds)
          && buildsMap[v].repoBuilds.builds == made.0 && buildsMap[v].repoBuilds.spec == made.1
    {
      var version := activeVersion.value;
      if version !in versionMap {
        return Some(Err(Other(VERSION_NOT_IN_MAP)));
      }
      var repo := versionMap[version];
      var pkg := VersionIdent(packageName, version);
      if version !in buildsMap {
        var made := NewRepositoryBuildIterator(store, pkg, repo);
        if made.Err? {
          if made.error.InvalidPackageSpec? {
            activeVersion := None;
            return None;
          }
          return Some(Err(made.error));
        }
        buildsMap := buildsMap[version := FromRepository(made.value)];
      }
      var builds := buildsMap[version];
      if HandleIsEmpty(builds) {
        activeVersion := None;
        return None;
      }
      return Some(Ok(Some((pkg, builds))));
    }

    /** `set_builds`: replaces the build iterator of one version. */
    method SetBuilds(version: Version, builds: BuildHandle)
      modifies this
      ensures buildsMap == old(buildsMap)[version := builds]
      ensures KeepsBuilds(old(buildsMap) - {version}, buildsMap)
      ensures versions == old(versions) && versionMap == old(versionMap) && activeVersion == old(activeVersion)
    {
      buildsMap := buildsMap[version := builds];
    }
  }

  /** The package iterator's invariant, on its fields' values: every
      version still to be offered, and the active one, has a repository in
      the version map, and each of them comes once; before the start there
      is no active version. */
  predicate QueueValid(versions: Option<VersionIterator>, versionMap: map<Version, Repo>, activeVersion: Option<Version>) {
    && (versions.None? ==> activeVersion.None?)
    && (versions.Some? ==> forall v | v in versions.value.versions :: v in versionMap)
    && (activeVersion.Some? ==> activeVersion.value in versionMap)
    && (versions.Some? ==> NoDup(versions.value.versions))
    && (versions.Some? && activeVersion.Some? ==> activeVersion.value !in versions.value.versions)
  }

  /** Making the front of the queue the active version keeps the
      invariant. */
  lemma ActivateKeepsValid(it: VersionIterator, versionMap: map<Version, Repo>)
    requires QueueValid(Some(it), versionMap, None)
    ensures QueueValid(Some(NextVersion(it).1), versionMap, NextVersion(it).0)
  {
    NextVersionKeeps(it, versionMap);
  }

  /** Taking the next version keeps every remaining version mapped when
      every queued one was, and keeps the queue free of repeats, without the
      version taken. */
  lemma NextVersionKeeps(it: VersionIterator, versionMap: map<Version, Repo>)
    ensures (forall v | v in it.versions :: v in versionMap) ==>
      && (NextVersion(it).0.Some? ==> NextVersion(it).0.value in versionMap)
      && (forall v | v in NextVersion(it).1.versions :: v in versionMap)
    ensures NoDup(it.versions) ==>
      && NoDup(NextVersion(it).1.versions)
      && (NextVersion(it).0.Some? ==> NextVersion(it).0.value !in NextVersion(it).1.versions)
  {
    if it.versions != [] {
      var rest := it.versions[1..];
      forall v | v in rest ensures v in it.versions {
        var k :| 0 <= k < |rest| && rest[k] == v;
        assert it.versions[k + 1] == v;
      }
    }
  }

  /** Taking the front of the queue as the active version keeps the
      candidates and leaves a suffix of the queue, empty when nothing was
      taken. */
  lemma NextVersionCandidates(it: VersionIterator)
    ensures Candidates(NextVersion(it).0, NextVersion(it).1.versions) == Candidates(None, it.versions)
    ensures IsSuffix(NextVersion(it).1.versions, it.versions)
    ensures NextVersion(it).0.None? ==> NextVersion(it).1.versions == []
  {
    if it.versions != [] {
      assert it.versions[1..] == it.versions[|it.versions| - |it.versions[1..]|..];
    }
  }

  /** What is left of the candidates past the active version is what is
      left of the queue. */
  lemma CandidatesSuffix(active: Option<Version>, queue: seq<Version>, n: nat)
    requires (if active.Some? then 1 else 0) <= n <= |Candidates(active, queue)|
    ensures IsSuffix(Candidates(active, queue)[n..], queue)
  {
    var c := Candidates(active, queue);
    if active.Some? {
      assert c[n..] == queue[n - 1..];
    } else {
      assert c == queue;
    }
  }

  /** Every entry of `before` is still there, unchanged. */
  predicate KeepsBuilds(before: map<Version, BuildHandle>, after: map<Version, BuildHandle>) {
    forall v | v in before :: v in after && after[v] == before[v]
  }

  lemma KeepsBuildsTrans(a: map<Version, BuildHandle>, b: map<Version, BuildHandle>, c: map<Version, BuildHandle>)
    requires KeepsBuilds(a, b) && KeepsBuilds(b, c)
    ensures KeepsBuilds(a, c)
  {
  }

  lemma SuffixTrans(a: seq<Version>, b: seq<Version>, c: seq<Version>)
    requires IsSuffix(a, b) && IsSuffix(b, c)
    ensures IsSuffix(a, c)
  {
    assert b[|b| - |a|..] == c[|c| - |a|..];
  }

  /** `s` is what remains of `t` after some of its front was taken. */
  predicate IsSuffix(s: seq<Version>, t: seq<Version>) {
    |s| <= |t| && s == t[|t| - |s|..]
  }
}
