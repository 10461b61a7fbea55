/** A list of installation requirements: an in-place upsert by name, the
    rendering of pinned requests from the resolved build environment, and
    the rejection of a list naming one package twice. */
module Requirements {
  import opened Wrappers
  import opened Strs
  import Idents

  /** Option names to values. */
  type OptionMap = map<string, string>

  /** A package request, whose pin (when set) is rendered from the resolved
      package of that name, or a variable request, whose pin flag asks for
      its value to be taken from the build options. The remaining fields of
      a request are carried as text. */
  datatype Request =
    | Pkg(pkg: string, pkgPin: Option<string>, body: string)
    | Var(variable: string, varPin: bool, value: string)

  function Name(r: Request): string {
    if r.Pkg? then r.pkg else r.variable
  }

  predicate NamesDistinct(s: seq<Request>) {
    forall i, j | 0 <= i < j < |s| :: Name(s[i]) != Name(s[j])
  }

  /** The index of the first request called `name`. */
  function FirstNamed(s: seq<Request>, name: string): (r: Option<nat>)
    ensures r.None? <==> forall j | 0 <= j < |s| :: Name(s[j]) != name
    ensures r.Some? ==> r.value < |s| && Name(s[r.value]) == name
    ensures r.Some? ==> forall j | 0 <= j < r.value :: Name(s[j]) != name
  {
    if s == [] then None
    else if Name(s[0]) == name then Some(0)
    else match FirstNamed(s[1..], name)
      case None => None
      case Some(i) => Some(i + 1)
  }

  /** The list after `upsert`: the first request of the same name is
      replaced where it stands, or the request is appended. */
  function Upserted(s: seq<Request>, req: Request): (r: seq<Request>)
    ensures FirstNamed(s, Name(req)).Some? ==>
      var i := FirstNamed(s, Name(req)).value;
      |r| == |s| && r[i] == req && forall j | 0 <= j < |s| && j != i :: r[j] == s[j]
    ensures FirstNamed(s, Name(req)).None? ==> |r| == |s| + 1 && r[..|s|] == s && r[|s|] == req
  {
    match FirstNamed(s, Name(req))
    case Some(i) => s[i := req]
    case None => s + [req]
  }

  /** Upserting keeps a list free of repeated names. */
  lemma UpsertKeepsNamesDistinct(s: seq<Request>, req: Request)
    requires NamesDistinct(s)
    ensures NamesDistinct(Upserted(s, req))
  {
    var r := Upserted(s, req);
    forall i, j | 0 <= i < j < |r|
      ensures Name(r[i]) != Name(r[j])
    {
      match FirstNamed(s, Name(req))
      case Some(k) =>
        if i == k {
          assert Name(s[k]) == Name(req);
          assert Name(r[j]) == Name(s[j]);
        } else if j == k {
          assert Name(s[k]) == Name(req);
          assert Name(r[i]) == Name(s[i]);
        }
      case None =>
        if j == |s| {
          assert r[i] == s[i];
        } else {
          assert r[i] == s[i] && r[j] == s[j];
        }
    }
  }

  /** A second identical upsert changes nothing. */
  lemma UpsertIdempotent(s: seq<Request>, req: Request)
    ensures Upserted(Upserted(s, req), req) == Upserted(s, req)
  {
    var once := Upserted(s, req);
    match FirstNamed(s, Name(req))
    case Some(k) =>
      assert FirstNamed(once, Name(req)) == Some(k);
    case None =>
      assert FirstNamed(once, Name(req)) == Some(|s|);
  }

  /** After an upsert a request by that name is found, and it is the
      upserted one. */
  lemma UpsertFinds(s: seq<Request>, req: Request)
    ensures FirstNamed(Upserted(s, req), Name(req)).Some?
    ensures Upserted(s, req)[FirstNamed(Upserted(s, req), Name(req)).value] == req
  {
    var once := Upserted(s, req);
    match FirstNamed(s, Name(req))
    case Some(k) =>
      assert FirstNamed(once, Name(req)) == Some(k);
    case None =>
      assert FirstNamed(once, Name(req)) == Some(|s|);
  }

  /** The resolved packages by name, each name bound to the last package
      carrying it. */
  function ByName(resolved: seq<Idents.Ident>): map<string, Idents.Ident> {
    if resolved == [] then map[]
    else ByName(resolved[..|resolved| - 1])[resolved[|resolved| - 1].name := resolved[|resolved| - 1]]
  }

  /** A name is bound exactly when some resolved package carries it, and
      then to the last such package. */
  lemma {:induction false} ByNameLastWins(resolved: seq<Idents.Ident>, name: string)
    ensures name in ByName(resolved) <==> exists i | 0 <= i < |resolved| :: resolved[i].name == name
    ensures name in ByName(resolved) ==>
      exists i | 0 <= i < |resolved| ::
        && resolved[i].name == name
        && ByName(resolved)[name] == resolved[i]
        && forall j | i < j < |resolved| :: resolved[j].name != name
  {
    if resolved != [] {
      var init := resolved[..|resolved| - 1];
      var last := resolved[|resolved| - 1];
      ByNameLastWins(init, name);
      if last.name == name {
        assert resolved[|resolved| - 1].name == name;
      } else {
        if name in ByName(init) {
          var i :| 0 <= i < |init| && init[i].name == name && ByName(init)[name] == init[i]
            && forall j | i < j < |init| :: init[j].name != name;
          assert resolved[i] == init[i];
          assert forall j | i < j < |resolved| :: resolved[j].name != name by {
            forall j | i < j < |resolved|
              ensures resolved[j].name != name
            {
              if j < |init| {
                assert resolved[j] == init[j];
              }
            }
          }
        }
        if exists i | 0 <= i < |resolved| :: resolved[i].name == name {
          var i :| 0 <= i < |resolved| && resolved[i].name == name;
          assert i < |init| && init[i] == resolved[i];
        }
      }
    }
  }

  function NotPresent(name: string): string {
    "Cannot resolve fromBuildEnv, package not present: " + name + "\nIs it missing from your package build options?"
  }

  function NotSet(variable: string): string {
    "Cannot resolve fromBuildEnv, variable not set: " + variable + "\nIs it missing from the package build options?"
  }

  /** Where a pinned variable's value is looked up: `pkg.var` in the
      options of package `pkg`, a name without a dot in all options. */
  function VarSource(variable: string, options: OptionMap, packageOptions: (OptionMap, string) -> OptionMap): (r: (string, OptionMap))
    ensures '.' !in variable ==> r == (variable, options)
  {
    match SplitOnce(variable, '.')
    case None => (variable, options)
    case Some((package, rest)) => (rest, packageOptions(options, package))
  }

  /** The rendering of one request: unpinned requests are kept, a pinned
      one needs its package resolved or its variable set and is then
      rendered by the request's own `render_pin`. */
  function RenderOne(
    req: Request, byName: map<string, Idents.Ident>, options: OptionMap,
    packageOptions: (OptionMap, string) -> OptionMap,
    renderPkg: (Request, Idents.Ident) -> Result<Request, string>,
    renderVar: (Request, string) -> Result<Request, string>): Result<Request, string>
  {
    match req
    case Pkg(pkg, pin, _) =>
      if pin.None? then Ok(req)
      else if pkg !in byName then Err(NotPresent(pkg))
      else renderPkg(req, byName[pkg])
    case Var(variable, pin, _) =>
      if !pin then Ok(req)
      else
        var (name, opts) := VarSource(variable, options, packageOptions);
        if name !in opts then Err(NotSet(variable))
        else renderVar(req, opts[name])
  }

  /** Unpinned requests are kept; a pinned one fails when its package is
      not resolved or its variable not set. */
  lemma RenderOneShape(
    req: Request, byName: map<string, Idents.Ident>, options: OptionMap,
    packageOptions: (OptionMap, string) -> OptionMap,
    renderPkg: (Request, Idents.Ident) -> Result<Request, string>,
    renderVar: (Request, string) -> Result<Request, string>)
    ensures var r := RenderOne(req, byName, options, packageOptions, renderPkg, renderVar);
      && (req.Pkg? && req.pkgPin.None? ==> r == Ok(req))
      && (req.Var? && !req.varPin ==> r == Ok(req))
      && (req.Pkg? && req.pkgPin.Some? && req.pkg !in byName ==> r == Err(NotPresent(req.pkg)))
      && (req.Var? && req.varPin && VarSource(req.variable, options, packageOptions).0 !in VarSource(req.variable, options, packageOptions).1 ==>
            r == Err(NotSet(req.variable)))
  {
  }

  /** The requests from index `i` on after `render_all_pins`, and its
      outcome: each request is rendered in turn, and the first error stops
      the walk with the requests before it rendered and the rest as they
      were. */
  function RenderFrom(
    s: seq<Request>, i: nat, byName: map<string, Idents.Ident>, options: OptionMap,
    packageOptions: (OptionMap, string) -> OptionMap,
    renderPkg: (Request, Idents.Ident) -> Result<Request, string>,
    renderVar: (Request, string) -> Result<Request, string>): (r: (seq<Request>, Result<(), string>))
    requires i <= |s|
    ensures |r.0| == |s| - i
    decreases |s| - i
  {
    if i == |s| then ([], Ok(()))
    else match RenderOne(s[i], byName, options, packageOptions, renderPkg, renderVar)
      case Err(e) => (s[i..], Err(e))
      case Ok(x) =>
        var rest := RenderFrom(s, i + 1, byName, options, packageOptions, renderPkg, renderVar);
        ([x] + rest.0, rest.1)
  }

  function RenderList(s: seq<Request>, byName: map<string, Idents.Ident>, options: OptionMap,
    packageOptions: (OptionMap, string) -> OptionMap,
    renderPkg: (Request, Idents.Ident) -> Result<Request, string>,
    renderVar: (Request, string) -> Result<Request, string>): (r: (seq<Request>, Result<(), string>)) {
    RenderFrom(s, 0, byName, options, packageOptions, renderPkg, renderVar)
  }

  /** On success every request from `i` on is its rendering. */
  lemma {:induction false} RenderFromOk(s: seq<Request>, i: nat, byName: map<string, Idents.Ident>, options: OptionMap,
    packageOptions: (OptionMap, string) -> OptionMap,
    renderPkg: (Request, Idents.Ident) -> Result<Request, string>,
    renderVar: (Request, string) -> Result<Request, string>)
    requires i <= |s|
    ensures var r := RenderFrom(s, i, byName, options, packageOptions, renderPkg, renderVar);
      r.1.Ok? ==> forall k | i <= k < |s| :: RenderOne(s[k], byName, options, packageOptions, renderPkg, renderVar) == Ok(r.0[k - i])
    decreases |s| - i
  {
    if i < |s| && RenderOne(s[i], byName, options, packageOptions, renderPkg, renderVar).Ok? {
      RenderFromOk(s, i + 1, byName, options, packageOptions, renderPkg, renderVar);
    }
  }

  /** Rendering from `i` on stopped at `k` with outcome `r`: the request at
      `k` fails with the reported error, those from `i` to `k` are rendered
      and those from `k` on are unchanged. */
  predicate StoppedAt(s: seq<Request>, i: nat, k: nat, r: (seq<Request>, Result<(), string>), byName: map<string, Idents.Ident>, options: OptionMap,
    packageOptions: (OptionMap, string) -> OptionMap,
    renderPkg: (Request, Idents.Ident) -> Result<Request, string>,
    renderVar: (Request, string) -> Result<Request, string>)
    requires i <= |s| && |r.0| == |s| - i
  {
    && i <= k < |s|
    && r.1.Err?
    && RenderOne(s[k], byName, options, packageOptions, renderPkg, renderVar) == Err(r.1.error)
    && (forall j | i <= j < k :: RenderOne(s[j], byName, options, packageOptions, renderPkg, renderVar) == Ok(r.0[j - i]))
    && r.0[k - i..] == s[k..]
  }

  lemma StoppedAtStep(s: seq<Request>, i: nat, k: nat, byName: map<string, Idents.Ident>, options: OptionMap,
    packageOptions: (OptionMap, string) -> OptionMap,
    renderPkg: (Request, Idents.Ident) -> Result<Request, string>,
    renderVar: (Request, string) -> Result<Request, string>)
    requires i < |s| && RenderOne(s[i], byName, options, packageOptions, renderPkg, renderVar).Ok?
    requires StoppedAt(s, i + 1, k, RenderFrom(s, i + 1, byName, options, packageOptions, renderPkg, renderVar), byName, options, packageOptions, renderPkg, renderVar)
    ensures StoppedAt(s, i, k, RenderFrom(s, i, byName, options, packageOptions, renderPkg, renderVar), byName, options, packageOptions, renderPkg, renderVar)
  {
    var r := RenderFrom(s, i, byName, options, packageOptions, renderPkg, renderVar);
    var rest := RenderFrom(s, i + 1, byName, options, packageOptions, renderPkg, renderVar);
    var x := RenderOne(s[i], byName, options, packageOptions, renderPkg, renderVar).value;
    assert r == ([x] + rest.0, rest.1);
    assert r.0[k - i..] == rest.0[k - (i + 1)..];
    forall j | i <= j < k
      ensures RenderOne(s[j], byName, options, packageOptions, renderPkg, renderVar) == Ok(r.0[j - i])
    {
      if j > i {
        assert r.0[j - i] == rest.0[j - (i + 1)];
      }
    }
  }

  /** On failure there is a point where the walk stopped. */
  lemma {:induction false} RenderFromErr(s: seq<Request>, i: nat, byName: map<string, Idents.Ident>, options: OptionMap,
    packageOptions: (OptionMap, string) -> OptionMap,
    renderPkg: (Request, Idents.Ident) -> Result<Request, string>,
    renderVar: (Request, string) -> Result<Request, string>)
    requires i <= |s|
    ensures RenderFrom(s, i, byName, options, packageOptions, renderPkg, renderVar).1.Err? ==>
      exists k :: StoppedAt(s, i, k, RenderFrom(s, i, byName, options, packageOptions, renderPkg, renderVar), byName, options, packageOptions, renderPkg, renderVar)
    decreases |s| - i
  {
    if i < |s| {
      var r := RenderFrom(s, i, byName, options, packageOptions, renderPkg, renderVar);
      var head := RenderOne(s[i], byName, options, packageOptions, renderPkg, renderVar);
      if head.Err? {
        assert r == (s[i..], Err(head.error));
        assert r.0[i - i..] == s[i..];
        assert StoppedAt(s, i, i, r, byName, options, packageOptions, renderPkg, renderVar);
      } else {
        RenderFromErr(s, i + 1, byName, options, packageOptions, renderPkg, renderVar);
        if RenderFrom(s, i + 1, byName, options, packageOptions, renderPkg, renderVar).1.Err? {
          var k :| StoppedAt(s, i + 1, k, RenderFrom(s, i + 1, byName, options, packageOptions, renderPkg, renderVar), byName, options, packageOptions, renderPkg, renderVar);
          StoppedAtStep(s, i, k, byName, options, packageOptions, renderPkg, renderVar);
        }
      }
    }
  }

  /** Unpinned requests come out of `render_all_pins` as they went in. */
  lemma UnpinnedUntouched(s: seq<Request>, byName: map<string, Idents.Ident>, options: OptionMap,
    packageOptions: (OptionMap, string) -> OptionMap,
    renderPkg: (Request, Idents.Ident) -> Result<Request, string>,
    renderVar: (Request, string) -> Result<Request, string>, k: nat)
    requires k < |s|
    requires (s[k].Pkg? && s[k].pkgPin.None?) || (s[k].Var? && !s[k].varPin)
    ensures RenderList(s, byName, options, packageOptions, renderPkg, renderVar).0[k] == s[k]
  {
    var r := RenderList(s, byName, options, packageOptions, renderPkg, renderVar);
    RenderOneShape(s[k], byName, options, packageOptions, renderPkg, renderVar);
    RenderFromOk(s, 0, byName, options, packageOptions, renderPkg, renderVar);
    RenderFromErr(s, 0, byName, options, packageOptions, renderPkg, renderVar);
    if r.1.Err? {
      var e: nat :| StoppedAt(s, 0, e, r, byName, options, packageOptions, renderPkg, renderVar);
      if k >= e {
        assert r.0[k] == r.0[e..][k - e];
      } else {
        assert RenderOne(s[k], byName, options, packageOptions, renderPkg, renderVar) == Ok(r.0[k - 0]);
      }
    } else {
      assert RenderOne(s[k], byName, options, packageOptions, renderPkg, renderVar) == Ok(r.0[k - 0]);
    }
  }

  function Multiple(name: string): string {
    "found multiple install requirements for '" + name + "'"
  }

  /** Deserialisation: the list as given, unless a name repeats; then the
      first name seen twice is reported. */
  method Deserialize(unchecked: seq<Request>) returns (r: Result<seq<Request>, string>)
    ensures r.Ok? <==> NamesDistinct(unchecked)
    ensures r.Ok? ==> r.value == unchecked
    ensures r.Err? ==> exists k | 0 <= k < |unchecked| ::
      && NamesDistinct(unchecked[..k])
      && (exists j | 0 <= j < k :: Name(unchecked[j]) == Name(unchecked[k]))
      && r.error == Multiple(Name(unchecked[k]))
  {
    var names: set<string> := {};
    var i := 0;
    while i < |unchecked|
      invariant 0 <= i <= |unchecked|
      invariant forall a, b | 0 <= a < b < i :: Name(unchecked[a]) != Name(unchecked[b])
      invariant forall j | 0 <= j < i :: Name(unchecked[j]) in names
      invariant forall x | x in names :: exists j | 0 <= j < i :: Name(unchecked[j]) == x
    {
      var name := Name(unchecked[i]);
      if name in names {
        assert NamesDistinct(unchecked[..i]) by {
          var t := unchecked[..i];
          assert forall a | 0 <= a < |t| :: t[a] == unchecked[a];
        }
        return Err(Multiple(name));
      }
      names := names + {name};
      i := i + 1;
    }
    return Ok(unchecked);
  }

  /** The first loop of `render_all_pins`: the resolved packages inserted
      one by one into a map by name. */
  method IndexByName(resolved: seq<Idents.Ident>) returns (byName: map<string, Idents.Ident>)
    ensures byName == ByName(resolved)
  {
    byName := map[];
    var n := 0;
    while n < |resolved|
      invariant 0 <= n <= |resolved|
      invariant byName == ByName(resolved[..n])
    {
      assert resolved[..n + 1][..n] == resolved[..n];
      byName := byName[resolved[n].name := resolved[n]];
      n := n + 1;
    }
    assert resolved[..|resolved|] == resolved;
  }

  /** The loop of `render_all_pins` after `i` requests: those before `i`
      are what the walk renders them to, the rest are untouched. */
  predicate RenderedUpTo(start: seq<Request>, i: nat, items: seq<Request>, byName: map<string, Idents.Ident>, options: OptionMap,
    packageOptions: (OptionMap, string) -> OptionMap,
    renderPkg: (Request, Idents.Ident) -> Result<Request, string>,
    renderVar: (Request, string) -> Result<Request, string>) {
    && i <= |start| == |items|
    && items[i..] == start[i..]
    && RenderFrom(start, 0, byName, options, packageOptions, renderPkg, renderVar).0 == items[..i] + RenderFrom(start, i, byName, options, packageOptions, renderPkg, renderVar).0
    && RenderFrom(start, 0, byName, options, packageOptions, renderPkg, renderVar).1 == RenderFrom(start, i, byName, options, packageOptions, renderPkg, renderVar).1
  }

  lemma RenderedUpToStart(start: seq<Request>, byName: map<string, Idents.Ident>, options: OptionMap,
    packageOptions: (OptionMap, string) -> OptionMap,
    renderPkg: (Request, Idents.Ident) -> Result<Request, string>,
    renderVar: (Request, string) -> Result<Request, string>)
    ensures RenderedUpTo(start, 0, start, byName, options, packageOptions, renderPkg, renderVar)
  {
    assert start[..0] + RenderFrom(start, 0, byName, options, packageOptions, renderPkg, renderVar).0 == RenderFrom(start, 0, byName, options, packageOptions, renderPkg, renderVar).0;
  }

  lemma RenderedUpToStep(start: seq<Request>, i: nat, items: seq<Request>, byName: map<string, Idents.Ident>, options: OptionMap,
    packageOptions: (OptionMap, string) -> OptionMap,
    renderPkg: (Request, Idents.Ident) -> Result<Request, string>,
    renderVar: (Request, string) -> Result<Request, string>)
    requires RenderedUpTo(start, i, items, byName, options, packageOptions, renderPkg, renderVar) && i < |items|
    requires RenderOne(items[i], byName, options, packageOptions, renderPkg, renderVar).Ok?
    ensures RenderedUpTo(start, i + 1, items[i := RenderOne(items[i], byName, options, packageOptions, renderPkg, renderVar).value], byName, options, packageOptions, renderPkg, renderVar)
  {
    var x := RenderOne(items[i], byName, options, packageOptions, renderPkg, renderVar).value;
    var next := RenderFrom(start, i + 1, byName, options, packageOptions, renderPkg, renderVar);
    assert items[i] == start[i..][0] == start[i];
    assert RenderFrom(start, i, byName, options, packageOptions, renderPkg, renderVar) == ([x] + next.0, next.1);
    var after := items[i := x];
    assert after[..i + 1] == items[..i] + [x];
    assert after[..i + 1] + next.0 == items[..i] + ([x] + next.0);
    assert after[i + 1..] == items[i + 1..] == start[i + 1..];
  }

  lemma RenderedUpToStop(start: seq<Request>, i: nat, items: seq<Request>, byName: map<string, Idents.Ident>, options: OptionMap,
    packageOptions: (OptionMap, string) -> OptionMap,
    renderPkg: (Request, Idents.Ident) -> Result<Request, string>,
    renderVar: (Request, string) -> Result<Request, string>)
    requires RenderedUpTo(start, i, items, byName, options, packageOptions, renderPkg, renderVar) && i < |items|
    requires RenderOne(items[i], byName, options, packageOptions, renderPkg, renderVar).Err?
    ensures RenderFrom(start, 0, byName, options, packageOptions, renderPkg, renderVar) == (items, Err(RenderOne(items[i], byName, options, packageOptions, renderPkg, renderVar).error))
  {
    assert items[i] == start[i..][0] == start[i];
    assert RenderFrom(start, i, byName, options, packageOptions, renderPkg, renderVar) == (start[i..], Err(RenderOne(items[i], byName, options, packageOptions, renderPkg, renderVar).error));
    assert items == items[..i] + items[i..];
  }

  lemma RenderedUpToEnd(start: seq<Request>, items: seq<Request>, byName: map<string, Idents.Ident>, options: OptionMap,
    packageOptions: (OptionMap, string) -> OptionMap,
    renderPkg: (Request, Idents.Ident) -> Result<Request, string>,
    renderVar: (Request, string) -> Result<Request, string>)
    requires RenderedUpTo(start, |items|, items, byName, options, packageOptions, renderPkg, renderVar)
    ensures RenderFrom(start, 0, byName, options, packageOptions, renderPkg, renderVar) == (items, Ok(()))
  {
    assert items[..|items|] + [] == items;
  }

  class RequirementsList {
    var items: seq<Request>

    constructor (items: seq<Request>)
      ensures this.items == items
    {
      this.items := items;
    }

    /** `upsert`: replaces the first request of the same name where it
        stands, or appends the request. */
    method Upsert(request: Request)
      modifies this
      ensures items == Upserted(old(items), request)
    {
      var name := Name(request);
      var i := 0;
      while i < |items|
        invariant 0 <= i <= |items|
        invariant forall j | 0 <= j < i :: Name(items[j]) != name
      {
        if Name(items[i]) == name {
          items := items[i := request];
          return;
        }
        i := i + 1;
      }
      items := items + [request];
    }

    /** `render_all_pins`: indexes the resolved packages by name, then
        renders each request in place; the first error is returned and the
        requests rendered before it stay rendered. */
    method RenderAllPins(
      options: OptionMap, resolved: seq<Idents.Ident>,
      packageOptions: (OptionMap, string) -> OptionMap,
      renderPkg: (Request, Idents.Ident) -> Result<Request, string>,
      renderVar: (Request, string) -> Result<Request, string>) returns (r: Result<(), string>)
      modifies this
      ensures (items, r) == RenderList(old(items), ByName(resolved), options, packageOptions, renderPkg, renderVar)
    {
      var byName := IndexByName(resolved);
      ghost var start := items;
      RenderedUpToStart(start, byName, options, packageOptions, renderPkg, renderVar);
      var i := 0;
      while i < |items|
        invariant RenderedUpTo(start, i, items, byName, options, packageOptions, renderPkg, renderVar)
        decreases |items| - i
      {
        var rendered := RenderOne(items[i], byName, options, packageOptions, renderPkg, renderVar);
        if rendered.Err? {
          RenderedUpToStop(start, i, items, byName, options, packageOptions, renderPkg, renderVar);
          return Err(rendered.error);
        }
        RenderedUpToStep(start, i, items, byName, options, packageOptions, renderPkg, renderVar);
        items := items[i := rendered.value];
        i := i + 1;
      }
      RenderedUpToEnd(start, items, byName, options, packageOptions, renderPkg, renderVar);
      r := Ok(());
    }
  }
}
