/** Tag streams in a filesystem repository. Each tag stream is one file
    under the repository's `tags` directory; a push appends one record to it,
    reads return the records latest first, and removal rewrites the file
    without the removed tag. The filesystem is a map from paths to the records
    of each file (one element per size-prefixed record) and a set of
    directories; a path is its list of components from the filesystem root. */
module Tags {
  import opened Wrappers
  import opened Seqs
  import opened Strs
  import Binary

  type Path = seq<string>

  const TAG_EXT: string := "tag"

  /** A tag specification: the organisation path, the tag name and the
      version counted back from the latest (0 is the latest). */
  datatype TagSpec = TagSpec(org: seq<string>, name: string, version: nat)

  /** A tag: where it lives, the object it points at and who made it when. */
  datatype Tag = Tag(org: seq<string>, name: string, target: Binary.Digest, user: string, time: int)

  datatype Error = UnknownReference(reference: string) | Io(message: string) | Invalid(message: string)

  /** `build_tag_spec(tag.org(), tag.name(), 0)`. The name validation it does
      lives outside the modelled files. */
  function SpecOf(t: Tag): TagSpec {
    TagSpec(t.org, t.name, 0)
  }

  /** A stand-in for `TagSpec`'s `Display`. */
  function SpecText(spec: TagSpec): string {
    Join(spec.org + [spec.name], '/') + (if spec.version == 0 then "" else "~" + NatToString(spec.version))
  }

  // ----- paths -----

  function Last(p: Path): string
    requires p != []
  {
    p[|p| - 1]
  }

  function Parent(p: Path): Path {
    if p == [] then [] else p[..|p| - 1]
  }

  /** `Path::set_file_name`: replaces the last component. */
  function SetFileName(p: Path, name: string): (r: Path)
    ensures p != [] ==> r == Parent(p) + [name]
  {
    if p == [] then [name] else p[..|p| - 1] + [name]
  }

  predicate StartsWith(p: Path, prefix: Path) {
    |prefix| <= |p| && p[..|prefix|] == prefix
  }

  predicate StrictPrefix(a: Path, b: Path) {
    |a| < |b| && b[..|a|] == a
  }

  /** Every directory `create_dir_all` makes for `p`. */
  function Prefixes(p: Path): set<Path> {
    set k | 0 < k <= |p| :: p[..k]
  }

  /** `TagSpec::path` is the organisation followed by the name. */
  function SpecPath(spec: TagSpec): Path {
    spec.org + [spec.name]
  }

  /** `to_path`: `root` joined with the spec path, the last component renamed
      to `name.tag`. */
  function ToPath(spec: TagSpec, root: Path): (r: Path)
  {
    SetFileName(root + SpecPath(spec), spec.name + "." + TAG_EXT)
  }

  lemma ToPathShape(spec: TagSpec, root: Path)
    ensures ToPath(spec, root) == root + spec.org + [spec.name + ".tag"]
    ensures StartsWith(ToPath(spec, root), root)
    ensures Parent(ToPath(spec, root)) == root + spec.org
  {
    var p := root + SpecPath(spec);
    assert p[..|p| - 1] == root + spec.org;
    assert spec.name + "." + TAG_EXT == spec.name + ".tag";
    assert (root + spec.org + [spec.name + ".tag"])[..|root|] == root;
  }

  /** The version takes no part in the path; organisation and name do. */
  lemma ToPathInjective(a: TagSpec, b: TagSpec, root: Path)
    ensures ToPath(a, root) == ToPath(b, root) <==> a.org == b.org && a.name == b.name
  {
    ToPathShape(a, root);
    ToPathShape(b, root);
    if ToPath(a, root) == ToPath(b, root) {
      var p := ToPath(a, root);
      assert |a.org| == |b.org|;
      assert a.org == p[|root|..|p| - 1] == b.org;
      var an := a.name + ".tag";
      var bn := b.name + ".tag";
      assert an == bn;
      assert a.name == an[..|an| - 4] == b.name;
    }
  }

  // ----- file names, with the rules of Rust's `Path::extension` and `file_stem` -----

  function LastDot(n: string): (r: Option<nat>)
    ensures r.Some? ==> r.value < |n|
  {
    if n == [] then None
    else if n[|n| - 1] == '.' then Some(|n| - 1)
    else LastDot(n[..|n| - 1])
  }

  /** `LastDot` finds the last '.' of a name, and none only when the name
      has no '.'. */
  lemma {:induction false} LastDotShape(n: string)
    ensures var r := LastDot(n);
      && (r.None? <==> '.' !in n)
      && (r.Some? ==> n[r.value] == '.' && '.' !in n[r.value + 1..])
    decreases |n|
  {
    if n != [] && n[|n| - 1] != '.' {
      var init := n[..|n| - 1];
      assert n == init + [n[|n| - 1]];
      LastDotShape(init);
      var r := LastDot(init);
      if r.Some? {
        assert n[r.value + 1..] == init[r.value + 1..] + [n[|n| - 1]];
      }
    }
  }

  /** The text after the last dot, unless the name is `..`, has no dot or
      has its only dot in front. */
  function Extension(n: string): Option<string> {
    if n == ".." then None
    else match LastDot(n)
      case None => None
      case Some(i) => if i == 0 then None else Some(n[i + 1..])
  }

  /** The name without its extension. */
  function FileStem(n: string): string {
    if n == ".." then n
    else match LastDot(n)
      case None => n
      case Some(i) => if i == 0 then n else n[..i]
  }

  /** A name with an extension is its stem, a dot and the extension. */
  lemma StemAndExtension(n: string)
    requires Extension(n).Some?
    ensures FileStem(n) + "." + Extension(n).value == n
  {
    LastDotShape(n);
    var i := LastDot(n).value;
    assert n == n[..i] + [n[i]] + n[i + 1..];
  }

  /** The file of a tag named `name` has extension `tag` and stem `name`. */
  lemma TagFileName(name: string)
    requires name != ""
    ensures Extension(name + ".tag") == Some(TAG_EXT)
    ensures FileStem(name + ".tag") == name
  {
    var f := name + ".tag";
    assert f[..|f| - 1] == name + ".ta";
    assert (name + ".ta")[..|f| - 2] == name + ".t";
    assert (name + ".t")[..|f| - 3] == name + ".";
    assert LastDot(name + ".") == Some(|name|);
    assert LastDot(name + ".t") == Some(|name|);
    assert LastDot(name + ".ta") == Some(|name|);
    assert LastDot(f) == Some(|name|);
    assert f[|name| + 1..] == "tag";
    assert f[..|name|] == name;
  }

  /** A stand-in for `TagSpec::parse` applied to a path relative to the tags
      root: the components before the last one are the organisation. */
  function ParseSpec(rel: Path): (r: Result<TagSpec, Error>)
    ensures r.Ok? <==> rel != []
  {
    if rel == [] then Err(Invalid("tag spec cannot be empty"))
    else Ok(TagSpec(rel[..|rel| - 1], Last(rel), 0))
  }

  const NOT_A_TAG: string := "Path must end with '.tag' to be considered a tag"

  /** `tag_from_path`: fails without a file stem, otherwise drops the
      extension and the root prefix and parses the rest. */
  function TagFromPath(path: Path, root: Path): (r: Result<TagSpec, Error>)
    ensures (path == [] || Last(path) == "..") ==> r == Err(Invalid(NOT_A_TAG))
  {
    if path == [] || Last(path) == ".." then Err(Invalid(NOT_A_TAG))
    else
      var renamed := SetFileName(path, FileStem(Last(path)));
      if !StartsWith(renamed, root) then Err(Invalid("prefix not found"))
      else ParseSpec(renamed[|root|..])
  }

  /** Reading the spec back from its file path gives the spec at version 0. */
  lemma TagFromToPath(spec: TagSpec, root: Path)
    requires spec.name != ""
    ensures TagFromPath(ToPath(spec, root), root) == Ok(spec.(version := 0))
  {
    ToPathShape(spec, root);
    TagFileName(spec.name);
    var p := ToPath(spec, root);
    var renamed := SetFileName(p, spec.name);
    assert renamed == root + spec.org + [spec.name];
    assert renamed[..|root|] == root;
    var rel := renamed[|root|..];
    assert rel == spec.org + [spec.name];
    assert rel[..|rel| - 1] == spec.org;
  }

  /** A `.tag` file under the root is the file of the spec read from it. */
  lemma ToTagFromPath(path: Path, root: Path)
    requires path != [] && Last(path) != ".." && Extension(Last(path)) == Some(TAG_EXT)
    requires TagFromPath(path, root).Ok?
    ensures ToPath(TagFromPath(path, root).value, root) == path
  {
    var stem := FileStem(Last(path));
    StemAndExtension(Last(path));
    assert stem + ".tag" == stem + "." + "tag" == Last(path);
    var parent := Parent(path);
    assert SetFileName(path, stem) == parent + [stem];
    ParsedUnderRoot(parent, stem, root);
    var spec := TagFromPath(path, root).value;
    assert spec == TagSpec(parent[|root|..], stem, 0);
    ToPathShape(spec, root);
    assert path == parent + [Last(path)];
  }

  /** The spec parsed from `parent/stem` below `root` has the rest of the
      parent as organisation and the stem as name. */
  lemma ParsedUnderRoot(parent: Path, stem: string, root: Path)
    requires StartsWith(parent + [stem], root) && |root| <= |parent|
    ensures ParseSpec((parent + [stem])[|root|..]) == Ok(TagSpec(parent[|root|..], stem, 0))
    ensures root + parent[|root|..] == parent
  {
    var rel := (parent + [stem])[|root|..];
    assert rel == parent[|root|..] + [stem];
    assert parent[..|root|] == root;
  }

  // ----- reading -----

  /** `read_tag`: the records of the stream file, latest first; a missing
      file is an unknown reference. */
  function ReadTag(files: map<Path, seq<Tag>>, tagsRoot: Path, spec: TagSpec): (r: Result<seq<Tag>, Error>)
    ensures r.Ok? <==> ToPath(spec, tagsRoot) in files
    ensures r.Ok? ==> r.value == Reverse(files[ToPath(spec, tagsRoot)])
    ensures r.Err? ==> r.error == UnknownReference(SpecText(spec))
  {
    var path := ToPath(spec, tagsRoot);
    if path !in files then Err(UnknownReference(SpecText(spec))) else Ok(Reverse(files[path]))
  }

  /** The latest-first index of the first tag pointing at `digest`. */
  function FirstMatch(stream: seq<Tag>, digest: Binary.Digest): (r: Option<nat>)
    ensures r.None? <==> forall j | 0 <= j < |stream| :: stream[j].target != digest
    ensures r.Some? ==> r.value < |stream| && stream[r.value].target == digest
    ensures r.Some? ==> forall j | 0 <= j < r.value :: stream[j].target != digest
  {
    if stream == [] then None
    else if stream[0].target == digest then Some(0)
    else match FirstMatch(stream[1..], digest)
      case None => None
      case Some(i) => Some(i + 1)
  }

  /** The loop `find_tags` runs over one stream. */
  method FindInStream(stream: seq<Tag>, digest: Binary.Digest) returns (found: Option<nat>)
    ensures found == FirstMatch(stream, digest)
  {
    var i := 0;
    while i < |stream|
      invariant 0 <= i <= |stream|
      invariant forall j | 0 <= j < i :: stream[j].target != digest
      invariant FirstMatch(stream, digest) == FirstMatchFrom(stream, digest, i)
    {
      if stream[i].target == digest {
        return Some(i);
      }
      i := i + 1;
    }
    return None;
  }

  function FirstMatchFrom(stream: seq<Tag>, digest: Binary.Digest, i: nat): (r: Option<nat>)
    requires i <= |stream|
    requires forall j | 0 <= j < i :: stream[j].target != digest
    ensures r == FirstMatch(stream, digest)
    decreases |stream| - i
  {
    if i == |stream| then None
    else if stream[i].target == digest then Some(i)
    else FirstMatchFrom(stream, digest, i + 1)
  }

  type StreamItem = Result<(TagSpec, seq<Tag>), Error>

  /** `find_tags`: for each stream, the spec at the latest-first index of its
      first tag pointing at `digest`, if any; errors pass through. */
  function FindTags(items: seq<StreamItem>, digest: Binary.Digest): (r: seq<Result<TagSpec, Error>>)
    ensures |r| <= |items|
    ensures forall k | 0 <= k < |r| && r[k].Ok? ::
      exists j | 0 <= j < |items| :: Found(items[j], digest, r[k].value)
  {
    if items == [] then []
    else
      var head: seq<Result<TagSpec, Error>> := match items[0]
        case Err(e) => [Err(e)]
        case Ok((spec, stream)) =>
          match FirstMatch(stream, digest)
          case Some(i) => [Ok(spec.(version := i))]
          case None => [];
      var tail := FindTags(items[1..], digest);
      forall k | 0 <= k < |tail| && tail[k].Ok?
        ensures exists j | 0 <= j < |items| :: Found(items[j], digest, tail[k].value)
      {
        var j :| 0 <= j < |items[1..]| && Found(items[1..][j], digest, tail[k].value);
        assert items[1..][j] == items[j + 1];
      }
      assert forall k | 0 <= k < |head| && head[k].Ok? :: Found(items[0], digest, head[k].value);
      head + tail
  }

  /** `spec` is the match `find_tags` reports for the stream item. */
  predicate Found(item: StreamItem, digest: Binary.Digest, spec: TagSpec) {
    && item.Ok?
    && FirstMatch(item.value.1, digest) == Some(spec.version)
    && spec == item.value.0.(version := spec.version)
  }

  /** What one stream item contributes: an error passes through; a stream
      with a tag pointing at the digest gives its spec at the latest-first
      index of the first such tag; any other stream gives nothing. */
  lemma FindTagsOne(item: StreamItem, digest: Binary.Digest)
    ensures item.Err? ==> FindTags([item], digest) == [Err(item.error)]
    ensures item.Ok? && (exists j | 0 <= j < |item.value.1| :: item.value.1[j].target == digest) ==>
      && FirstMatch(item.value.1, digest).Some?
      && FindTags([item], digest) == [Ok(item.value.0.(version := FirstMatch(item.value.1, digest).value))]
    ensures item.Ok? && (forall j | 0 <= j < |item.value.1| :: item.value.1[j].target != digest) ==>
      FindTags([item], digest) == []
  {
    assert [item][1..] == [];
  }

  /** `find_tags` handles each stream on its own, in stream order: the
      results for two runs of streams are the results for each, one after
      the other. */
  lemma {:induction false} FindTagsAppend(a: seq<StreamItem>, b: seq<StreamItem>, digest: Binary.Digest)
    ensures FindTags(a + b, digest) == FindTags(a, digest) + FindTags(b, digest)
    decreases |a|
  {
    if a == [] {
      assert a + b == b;
    } else {
      assert (a + b)[0] == a[0];
      assert (a + b)[1..] == a[1..] + b;
      FindTagsAppend(a[1..], b, digest);
    }
  }

  /** What one walk entry contributes to `iter_tag_streams`: nothing for a
      directory or a file without the `tag` extension, else the spec read
      from its path with the records latest first. */
  function EntryItem(files: map<Path, seq<Tag>>, tagsRoot: Path, entry: Path): Option<StreamItem> {
    if entry !in files || entry == [] || Extension(Last(entry)) != Some(TAG_EXT) then None
    else match TagFromPath(entry, tagsRoot)
      case Err(e) => Some(Err(e))
      case Ok(spec) => Some(Ok((spec, Reverse(files[entry]))))
  }

  function StreamsFrom(files: map<Path, seq<Tag>>, tagsRoot: Path, entries: seq<Path>): seq<StreamItem>
  {
    if entries == [] then []
    else
      var head := match EntryItem(files, tagsRoot, entries[0]) case None => [] case Some(x) => [x];
      head + StreamsFrom(files, tagsRoot, entries[1..])
  }

  lemma {:induction false} StreamsFromAppend(files: map<Path, seq<Tag>>, tagsRoot: Path, entries: seq<Path>, e: Path)
    ensures StreamsFrom(files, tagsRoot, entries + [e])
         == StreamsFrom(files, tagsRoot, entries) + StreamsFrom(files, tagsRoot, [e])
  {
    if entries == [] {
      assert entries + [e] == [e];
    } else {
      assert (entries + [e])[1..] == entries[1..] + [e];
      StreamsFromAppend(files, tagsRoot, entries[1..], e);
    }
  }

  /** Every stream `iter_tag_streams` reports is what `read_tag` returns for
      its spec. */
  lemma StreamItemIsReadTag(files: map<Path, seq<Tag>>, tagsRoot: Path, entry: Path)
    requires EntryItem(files, tagsRoot, entry).Some? && EntryItem(files, tagsRoot, entry).value.Ok?
    ensures ReadTag(files, tagsRoot, EntryItem(files, tagsRoot, entry).value.value.0)
         == Ok(EntryItem(files, tagsRoot, entry).value.value.1)
  {
    assert Extension("..").None?;
    ToTagFromPath(entry, tagsRoot);
  }

  // ----- directory pruning -----

  predicate IsEmptyDir(d: Path, files: map<Path, seq<Tag>>, dirs: set<Path>) {
    && (forall p | p in files :: !StrictPrefix(d, p))
    && (forall e | e in dirs :: !StrictPrefix(d, e))
  }

  /** The directories left by the upward loop of `remove_tag_stream` starting
      at `path`: while the path starts with the tags root, its parent is
      removed if it is an empty directory; a missing or non-empty parent
      ends the loop. */
  function Prune(path: Path, tagsRoot: Path, files: map<Path, seq<Tag>>, dirs: set<Path>): set<Path>
    decreases |path|
  {
    if path == [] || !StartsWith(path, tagsRoot) then dirs
    else
      var parent := Parent(path);
      if parent !in dirs || !IsEmptyDir(parent, files, dirs) then dirs
      else Prune(parent, tagsRoot, files, dirs - {parent})
  }

  /** Pruning removes only empty ancestors of the starting path, holding no
      file, and it can go one level above the tags root: the directory that
      holds it. */
  lemma {:induction false} PruneRemovesEmptyAncestors(path: Path, tagsRoot: Path, files: map<Path, seq<Tag>>, dirs: set<Path>)
    ensures Prune(path, tagsRoot, files, dirs) <= dirs
    ensures forall d | d in dirs && d !in Prune(path, tagsRoot, files, dirs) ::
      StrictPrefix(d, path) && |d| + 1 >= |tagsRoot|
    ensures forall d, p | d in dirs && d !in Prune(path, tagsRoot, files, dirs) && p in files :: !StrictPrefix(d, p)
    decreases |path|
  {
    if path != [] && StartsWith(path, tagsRoot) {
      var parent := Parent(path);
      if parent in dirs && IsEmptyDir(parent, files, dirs) {
        PruneRemovesEmptyAncestors(parent, tagsRoot, files, dirs - {parent});
        forall d | d in dirs && d !in Prune(path, tagsRoot, files, dirs)
          ensures StrictPrefix(d, path) && |d| + 1 >= |tagsRoot|
        {
          if d != parent {
            assert StrictPrefix(d, parent);
            assert path[..|d|] == parent[..|d|];
          }
        }
      }
    }
  }

  /** The loop as written goes past the tags root: with one stream file
      removed from an otherwise empty repository, both the tags directory
      and the repository root are removed. */
  lemma PruneRemovesTagsRoot(root: Path, file: string)
    ensures Prune(root + ["tags", file], root + ["tags"], map[], {root, root + ["tags"]}) == {}
  {
    var tagsRoot := root + ["tags"];
    var path := root + ["tags", file];
    assert Parent(path) == tagsRoot;
    assert StartsWith(path, tagsRoot);
    assert StartsWith(tagsRoot, tagsRoot);
    assert Parent(tagsRoot) == root;
    assert !StrictPrefix(tagsRoot, root);
    assert IsEmptyDir(tagsRoot, map[], {root, tagsRoot});
    assert {root, tagsRoot} - {tagsRoot} == {root};
    assert IsEmptyDir(root, map[], {root});
    assert !StartsWith(root, tagsRoot);
    assert Prune(root, tagsRoot, map[], {}) == {};
    assert Prune(tagsRoot, tagsRoot, map[], {root}) == {};
  }

  /** The entries of directory `dir`. */
  function Children(dir: Path, files: map<Path, seq<Tag>>, dirs: set<Path>): set<string> {
    set p | p in files.Keys + dirs && |p| == |dir| + 1 && p[..|dir|] == dir :: p[|dir|]
  }

  /** How `ls_tags` names an entry: a `.tag` file by its stem, anything else
      by its name and a slash. */
  function EntryLabel(name: string): string {
    if Extension(name) == Some(TAG_EXT) then FileStem(name) else name + "/"
  }

  function Labels(names: set<string>): set<string> {
    set n | n in names :: EntryLabel(n)
  }

  /** A stream file `x.tag` and a directory `x` are listed apart. */
  lemma LabelsKeepTagsAndDirsApart(name: string)
    requires name != "" && '/' !in name
    ensures EntryLabel(name + ".tag") == name
    ensures EntryLabel(name) != name
  {
    TagFileName(name);
    if Extension(name) == Some(TAG_EXT) {
      assert FileStem(name) != name by {
        var i := LastDot(name).value;
        assert i != 0;
        assert |FileStem(name)| == i < |name|;
      }
    } else {
      assert |name + "/"| != |name|;
    }
  }

  /** Whether the tag is the one being removed. */
  function IsNot(tag: Tag): Tag -> bool {
    v => v != tag
  }

  /** Rewriting the kept records oldest first gives the original stream
      without the removed tag, in the original order. */
  lemma RewriteOrder(stream: seq<Tag>, tag: Tag)
    ensures Reverse(Filter(Reverse(stream), IsNot(tag))) == Filter(stream, IsNot(tag))
  {
    FilterReverse(stream, IsNot(tag));
    ReverseReverse(Filter(stream, IsNot(tag)));
  }

  /** The stream after a successful removal, read latest first: every record
      equal to the tag is gone and the others keep their order. */
  lemma RemovedStreamReads(stream: seq<Tag>, tag: Tag)
    ensures Reverse(Filter(stream, IsNot(tag))) == Filter(Reverse(stream), IsNot(tag))
    ensures tag !in Filter(stream, IsNot(tag))
    ensures forall t | t in stream && t != tag :: t in Filter(stream, IsNot(tag))
  {
    FilterReverse(stream, IsNot(tag));
  }

  type Files = map<Path, seq<Tag>>

  /** Every stream file holds a record, every record sits in the file of its
      own spec, and the directories of every file exist. */
  ghost predicate ValidState(files: Files, dirs: set<Path>, tagsRoot: Path) {
    && (forall p | p in files :: files[p] != [])
    && (forall p, t | p in files && t in files[p] :: ToPath(SpecOf(t), tagsRoot) == p)
    && (forall p | p in files :: Prefixes(Parent(p)) <= dirs)
  }

  /** The files after one record is appended to the file at `path`, which is
      created when missing. */
  function Appended(files: Files, path: Path, tag: Tag): (r: Files)
    ensures path in r && |r[path]| >= 1 && r[path][|r[path]| - 1] == tag
    ensures forall p | p in files :: p in r
  {
    files[path := (if path in files then files[path] else []) + [tag]]
  }

  /** The files after the stream at `path` is rewritten with `kept`: the
      file holds exactly those records, or is gone when none is kept. */
  function Rewritten(files: Files, path: Path, kept: seq<Tag>): (r: Files)
    ensures path in r <==> kept != []
    ensures forall p | p in files && p != path :: p in r && r[p] == files[p]
  {
    if kept == [] then files - {path} else files[path := kept]
  }

  /** After a push, reading the tag's stream gives the tag first, then what
      was read before. */
  lemma PushThenRead(files: Files, tagsRoot: Path, tag: Tag)
    ensures ReadTag(Appended(files, ToPath(SpecOf(tag), tagsRoot), tag), tagsRoot, SpecOf(tag))
         == Ok([tag] + (match ReadTag(files, tagsRoot, SpecOf(tag)) case Ok(s) => s case Err(_) => []))
  {
    var path := ToPath(SpecOf(tag), tagsRoot);
    var before := if path in files then files[path] else [];
    ReverseConcat(before, [tag]);
    assert Reverse([tag]) == [tag];
  }

  /** A push leaves every other stream as it was. */
  lemma PushLeavesOthers(files: Files, tagsRoot: Path, tag: Tag, spec: TagSpec)
    requires spec.org != tag.org || spec.name != tag.name
    ensures ReadTag(Appended(files, ToPath(SpecOf(tag), tagsRoot), tag), tagsRoot, spec) == ReadTag(files, tagsRoot, spec)
  {
    ToPathInjective(spec, SpecOf(tag), tagsRoot);
  }

  lemma PushKeepsValid(files: Files, dirs: set<Path>, tagsRoot: Path, tag: Tag)
    requires ValidState(files, dirs, tagsRoot)
    ensures ValidState(Appended(files, ToPath(SpecOf(tag), tagsRoot), tag),
                       dirs + Prefixes(Parent(ToPath(SpecOf(tag), tagsRoot))), tagsRoot)
  {
  }

  /** After a removal, reading the stream gives the records read before
      without the tag, in the same order, or an unknown reference when no
      record is left. */
  lemma {:induction false} RemoveThenRead(files: Files, tagsRoot: Path, tag: Tag)
    requires ToPath(SpecOf(tag), tagsRoot) in files
    ensures var path := ToPath(SpecOf(tag), tagsRoot);
      var kept := Filter(files[path], IsNot(tag));
      ReadTag(Rewritten(files, path, kept), tagsRoot, SpecOf(tag))
        == if kept == [] then Err(UnknownReference(SpecText(SpecOf(tag))))
           else Ok(Filter(ReadTag(files, tagsRoot, SpecOf(tag)).value, IsNot(tag)))
  {
    var path := ToPath(SpecOf(tag), tagsRoot);
    FilterReverse(files[path], IsNot(tag));
  }

  lemma RewriteKeepsValid(files: Files, dirs: set<Path>, tagsRoot: Path, path: Path, tag: Tag)
    requires ValidState(files, dirs, tagsRoot) && path in files
    ensures ValidState(Rewritten(files, path, Filter(files[path], IsNot(tag))), dirs, tagsRoot)
  {
    var kept := Filter(files[path], IsNot(tag));
    assert forall t | t in kept :: t in files[path];
  }

  /** Removing a file and pruning keeps every remaining file's directories. */
  lemma PruneKeepsValid(files: Files, dirs: set<Path>, tagsRoot: Path, path: Path)
    requires ValidState(files, dirs, tagsRoot)
    ensures ValidState(files - {path}, Prune(path, tagsRoot, files - {path}, dirs), tagsRoot)
  {
    var rest := files - {path};
    var after := Prune(path, tagsRoot, rest, dirs);
    PruneRemovesEmptyAncestors(path, tagsRoot, rest, dirs);
    forall p | p in rest
      ensures Prefixes(Parent(p)) <= after
    {
      forall d | d in Prefixes(Parent(p))
        ensures d in after
      {
        DirOfFileSurvives(d, p, rest, dirs, after);
      }
    }
  }

  lemma DirOfFileSurvives(d: Path, p: Path, files: Files, dirs: set<Path>, after: set<Path>)
    requires p in files && d in Prefixes(Parent(p)) && Prefixes(Parent(p)) <= dirs
    requires forall d', p' | d' in dirs && d' !in after && p' in files :: !StrictPrefix(d', p')
    ensures d in after
  {
    var k :| 0 < k <= |Parent(p)| && d == Parent(p)[..k];
    assert p[..k] == d;
    assert StrictPrefix(d, p);
  }

  /** A path no spec maps to holds no file of a valid repository. */
  lemma NoStrayFile(files: Files, dirs: set<Path>, tagsRoot: Path, path: Path)
    requires ValidState(files, dirs, tagsRoot)
    requires forall spec: TagSpec :: ToPath(spec, tagsRoot) != path
    ensures path !in files
  {
    forall p | p in files
      ensures p != path
    {
      var t := files[p][0];
      assert ToPath(SpecOf(t), tagsRoot) == p;
    }
  }

  /** Renaming the backup back restores the files exactly. */
  lemma RestoreBackup(start: Files, path: Path, backup: Path, mid: Files)
    requires path in start && backup !in start && path != backup
    requires mid - {path} == (start - {path})[backup := start[path]]
    ensures (mid - {backup})[path := start[path]] == start
  {
    var r := (mid - {backup})[path := start[path]];
    forall p | p in start
      ensures p in r && r[p] == start[p]
    {
      if p != path {
        assert p in mid - {path};
      }
    }
    forall p | p in r
      ensures p in start
    {
      if p != path {
        assert p in mid - {path};
      }
    }
    assert r.Keys == start.Keys;
  }

  /** Removing the backup after the rewrite leaves the rewritten stream. */
  lemma DropBackup(start: Files, path: Path, backup: Path, kept: seq<Tag>)
    requires path in start && backup !in start && path != backup
    ensures Rewritten((start - {path})[backup := start[path]], path, kept) - {backup} == Rewritten(start, path, kept)
  {
  }

  /** What `remove_tag` relies on in a valid repository: the kept records,
      rewritten oldest first, are the stream without the tag in its order;
      they all belong in the stream's file; the backup path is free. */
  lemma RemovePlan(files: Files, dirs: set<Path>, tagsRoot: Path, tag: Tag)
    requires ValidState(files, dirs, tagsRoot)
    requires ToPath(SpecOf(tag), tagsRoot) in files
    ensures var path := ToPath(SpecOf(tag), tagsRoot);
      && Reverse(Filter(Reverse(files[path]), IsNot(tag))) == Filter(files[path], IsNot(tag))
      && (forall t | t in Filter(files[path], IsNot(tag)) :: ToPath(SpecOf(t), tagsRoot) == path)
      && ValidState(Rewritten(files, path, Filter(files[path], IsNot(tag))), dirs, tagsRoot)
      && BackupPath(path) !in files && BackupPath(path) != path
      && Prefixes(Parent(path)) <= dirs
  {
    var path := ToPath(SpecOf(tag), tagsRoot);
    RewriteOrder(files[path], tag);
    RewriteKeepsValid(files, dirs, tagsRoot, path, tag);
    assert forall t | t in Filter(files[path], IsNot(tag)) :: t in files[path];
    BackupIsNoTagFile(path, tagsRoot);
    NoStrayFile(files, dirs, tagsRoot, BackupPath(path));
  }

  /** The repository, one field per part of the filesystem it touches. */
  class FsRepository {
    const root: Path
    var files: Files
    var dirs: set<Path>

    function TagsRoot(): Path {
      root + ["tags"]
    }

    ghost predicate Valid()
      reads this
    {
      ValidState(files, dirs, TagsRoot())
    }

    constructor (root: Path)
      ensures this.root == root && files == map[] && dirs == {}
      ensures Valid()
    {
      this.root := root;
      files := map[];
      dirs := {};
    }

    /** `push_raw_tag_without_lock`: creates the directories and appends one
        record to the end of the tag's stream file. */
    method PushRawTagWithoutLock(tag: Tag)
      modifies this
      ensures files == Appended(old(files), ToPath(SpecOf(tag), TagsRoot()), tag)
      ensures dirs == old(dirs) + Prefixes(Parent(ToPath(SpecOf(tag), TagsRoot())))
    {
      var path := ToPath(SpecOf(tag), TagsRoot());
      dirs := dirs + Prefixes(Parent(path));
      files := Appended(files, path, tag);
    }

    /** `push_raw_tag`: the same under the stream's lock. */
    method PushRawTag(tag: Tag)
      requires Valid()
      modifies this
      ensures files == Appended(old(files), ToPath(SpecOf(tag), TagsRoot()), tag)
      ensures dirs == old(dirs) + Prefixes(Parent(ToPath(SpecOf(tag), TagsRoot())))
      ensures Valid()
    {
      ghost var before := files;
      PushKeepsValid(files, dirs, TagsRoot(), tag);
      dirs := dirs + Prefixes(Parent(ToPath(SpecOf(tag), TagsRoot())));
      PushRawTagWithoutLock(tag);
    }

    /** The re-append loop of `remove_tag`: pushes `kept` in order into the
        file at `path`, which does not exist yet; the push at index
        `failAt`, if any, fails. */
    method Reappend(path: Path, kept: seq<Tag>, failAt: Option<nat>) returns (ok: bool)
      requires path !in files
      requires forall t | t in kept :: ToPath(SpecOf(t), TagsRoot()) == path
      requires Prefixes(Parent(path)) <= dirs
      modifies this
      ensures dirs == old(dirs)
      ensures ok <==> failAt.None? || failAt.value >= |kept|
      ensures files - {path} == old(files)
      ensures ok ==> files == Rewritten(old(files), path, kept)
    {
      var i := 0;
      while i < |kept|
        invariant 0 <= i <= |kept|
        invariant dirs == old(dirs)
        invariant failAt.Some? ==> failAt.value >= i
        invariant files - {path} == old(files)
        invariant files == if i == 0 then old(files) else old(files)[path := kept[..i]]
      {
        if failAt == Some(i) {
          return false;
        }
        assert kept[i] in kept;
        PushRawTagWithoutLock(kept[i]);
        assert kept[..i + 1] == kept[..i] + [kept[i]];
        i := i + 1;
      }
      assert kept[..|kept|] == kept;
      return true;
    }

    /** `remove_tag`. The lock needs the stream's directory; the read fails
        with an unknown reference when the file is missing; the file is
        renamed to its backup, the kept records are re-appended oldest first
        and the backup is removed, or renamed back when a re-append fails. */
    method RemoveTag(tag: Tag, failAt: Option<nat>) returns (r: Result<(), Error>)
      requires Valid()
      modifies this
      ensures Valid()
      ensures dirs == old(dirs)
      ensures r.Err? ==> files == old(files)
      ensures Parent(ToPath(SpecOf(tag), TagsRoot())) in old(dirs) && ToPath(SpecOf(tag), TagsRoot()) !in old(files) ==>
        r == Err(UnknownReference(SpecText(SpecOf(tag))))
      ensures var path := ToPath(SpecOf(tag), TagsRoot());
        Parent(path) in old(dirs) && path in old(files) ==>
          (r.Ok? <==> failAt.None? || failAt.value >= |Filter(old(files)[path], IsNot(tag))|)
      ensures r.Ok? ==>
        && ToPath(SpecOf(tag), TagsRoot()) in old(files)
        && files == Rewritten(old(files), ToPath(SpecOf(tag), TagsRoot()), Filter(old(files)[ToPath(SpecOf(tag), TagsRoot())], IsNot(tag)))
    {
      var spec := SpecOf(tag);
      var path := ToPath(spec, TagsRoot());
      if Parent(path) !in dirs {
        return Err(Io("No such file or directory"));
      }
      var read := ReadTag(files, TagsRoot(), spec);
      if read.Err? {
        return Err(read.error);
      }
      var tags := Filter(read.value, IsNot(tag));
      RemovePlan(files, dirs, TagsRoot(), tag);
      r := ReplaceStream(path, Reverse(tags), failAt);
    }

    /** The rewrite that ends `remove_tag`: the stream file is renamed to its
        backup, `kept` is re-appended oldest first, and the backup is then
        removed, or renamed back when a re-append fails. */
    method ReplaceStream(path: Path, kept: seq<Tag>, failAt: Option<nat>) returns (r: Result<(), Error>)
      requires Valid()
      requires path in files && BackupPath(path) !in files && BackupPath(path) != path
      requires Prefixes(Parent(path)) <= dirs
      requires forall t | t in kept :: ToPath(SpecOf(t), TagsRoot()) == path
      requires ValidState(Rewritten(files, path, kept), dirs, TagsRoot())
      modifies this
      ensures Valid()
      ensures dirs == old(dirs)
      ensures r.Ok? <==> failAt.None? || failAt.value >= |kept|
      ensures r.Err? ==> files == old(files)
      ensures r.Ok? ==> files == Rewritten(old(files), path, kept)
    {
      var original := files[path];
      var backup := BackupPath(path);
      ghost var start := files;
      DropBackup(start, path, backup, kept);
      files := (files - {path})[backup := original];
      var ok := Reappend(path, kept, failAt);
      if !ok {
        RestoreBackup(start, path, backup, files);
        files := (files - {backup})[path := original];
        return Err(Io("failed to re-append tag"));
      }
      files := files - {backup};
      r := Ok(());
    }

    /** The upward loop of `remove_tag_stream`. */
    method PruneFrom(path: Path)
      modifies this
      ensures files == old(files)
      ensures dirs == Prune(path, TagsRoot(), files, old(dirs))
    {
      var filepath := path;
      ghost var target := Prune(path, TagsRoot(), files, dirs);
      while StartsWith(filepath, TagsRoot())
        invariant Prune(filepath, TagsRoot(), files, dirs) == target
        invariant files == old(files)
        decreases |filepath|
      {
        var parent := Parent(filepath);
        if parent !in dirs || !IsEmptyDir(parent, files, dirs) {
          break;
        }
        dirs := dirs - {parent};
        filepath := parent;
      }
    }

    /** `remove_tag_stream`: nothing to do when the stream's directory is
        missing (the lock cannot be created), an unknown reference when the
        file is missing, otherwise the file is removed and empty parent
        directories are pruned. */
    method RemoveTagStream(spec: TagSpec) returns (r: Result<(), Error>)
      requires Valid()
      modifies this
      ensures Valid()
      ensures Parent(ToPath(SpecOf0(spec), TagsRoot())) !in old(dirs) ==>
        r == Ok(()) && files == old(files) && dirs == old(dirs)
      ensures Parent(ToPath(SpecOf0(spec), TagsRoot())) in old(dirs) && ToPath(SpecOf0(spec), TagsRoot()) !in old(files) ==>
        r == Err(UnknownReference(SpecText(spec))) && files == old(files) && dirs == old(dirs)
      ensures Parent(ToPath(SpecOf0(spec), TagsRoot())) in old(dirs) && ToPath(SpecOf0(spec), TagsRoot()) in old(files) ==>
        && r == Ok(())
        && files == old(files) - {ToPath(SpecOf0(spec), TagsRoot())}
        && dirs == Prune(ToPath(SpecOf0(spec), TagsRoot()), TagsRoot(), files, old(dirs))
    {
      var path := ToPath(SpecOf0(spec), TagsRoot());
      if Parent(path) !in dirs {
        return Ok(());
      }
      if path !in files {
        return Err(UnknownReference(SpecText(spec)));
      }
      PruneKeepsValid(files, dirs, TagsRoot(), path);
      files := files - {path};
      PruneFrom(path);
      r := Ok(());
    }

    /** `ls_tags`: the entries of the directory, each `.tag` file by its
        stem and every other entry as its name and a slash, each label once.
        A missing directory lists nothing; a file in its place is an error.
        The order the directory is read in is not modelled: entries are
        taken in any order. */
    method LsTags(path: Path) returns (r: Result<seq<string>, Error>)
      ensures TagsRoot() + path in files ==> r.Err?
      ensures TagsRoot() + path !in files && TagsRoot() + path !in dirs ==> r == Ok([])
      ensures TagsRoot() + path !in files && TagsRoot() + path in dirs ==>
        && r.Ok?
        && NoDup(r.value)
        && (set x | x in r.value) == Labels(Children(TagsRoot() + path, files, dirs))
    {
      var dir := TagsRoot() + path;
      if dir in files {
        return Err(Io("Not a directory"));
      }
      if dir !in dirs {
        return Ok([]);
      }
      var remaining := Children(dir, files, dirs);
      var listed: seq<string> := [];
      var entries: set<string> := {};
      while remaining != {}
        invariant remaining <= Children(dir, files, dirs)
        invariant entries == Labels(Children(dir, files, dirs) - remaining)
        invariant entries == (set x | x in listed)
        invariant NoDup(listed)
        decreases |remaining|
      {
        var name :| name in remaining;
        remaining := remaining - {name};
        var shown := EntryLabel(name);
        if shown !in entries {
          entries := entries + {shown};
          listed := listed + [shown];
        }
      }
      r := Ok(listed);
    }

    /** `iter_tag_streams`: the walk of the tags directory, in the order the
        walk yields its entries. */
    method TagStreams(entries: seq<Path>) returns (items: seq<StreamItem>)
      ensures items == StreamsFrom(files, TagsRoot(), entries)
    {
      items := [];
      var i := 0;
      while i < |entries|
        invariant 0 <= i <= |entries|
        invariant items == StreamsFrom(files, TagsRoot(), entries[..i])
      {
        var entry := entries[i];
        StreamsFromAppend(files, TagsRoot(), entries[..i], entry);
        assert entries[..i + 1] == entries[..i] + [entry];
        assert [entry][1..] == [];
        i := i + 1;
        if entry !in files || entry == [] || Extension(Last(entry)) != Some(TAG_EXT) {
          continue;
        }
        var spec := TagFromPath(entry, TagsRoot());
        if spec.Err? {
          items := items + [Err(spec.error)];
        } else {
          items := items + [Ok((spec.value, Reverse(files[entry])))];
        }
      }
      assert entries[..|entries|] == entries;
    }
  }

  /** The spec with version 0, as `build_tag_spec(org, name, 0)` makes it. */
  function SpecOf0(spec: TagSpec): TagSpec {
    TagSpec(spec.org, spec.name, 0)
  }

  /** `filepath.with_extension("tag.backup")`. */
  function BackupPath(path: Path): Path {
    if path == [] then path
    else Parent(path) + [FileStem(Last(path)) + ".tag.backup"]
  }

  /** The backup sits beside the stream file and is no stream file itself. */
  lemma BackupIsNoTagFile(path: Path, root: Path)
    requires path != []
    ensures Parent(BackupPath(path)) == Parent(path)
    ensures forall spec: TagSpec :: ToPath(spec, root) != BackupPath(path)
  {
    var b := BackupPath(path);
    assert b[..|path| - 1] == Parent(path);
    var last := FileStem(Last(path)) + ".tag.backup";
    assert Last(b) == last;
    assert last[|last| - 1] == 'p';
    forall spec: TagSpec
      ensures ToPath(spec, root) != b
    {
      ToPathShape(spec, root);
      var a := spec.name + ".tag";
      assert Last(ToPath(spec, root)) == a;
      assert a[|a| - 1] == 'g';
    }
  }
}
