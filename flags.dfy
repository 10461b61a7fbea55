/** The command-line helpers that turn flags and the environment into solver
    inputs: build options from `SPK_OPT_*` variables and `--opt` pairs, the
    `package@stage` specifier, the `--pre` default on requests, and the
    ordered repository list from `--local-repo` / `--enable-repo`. The
    environment, the YAML reader and the repository constructors are
    parameters. */
module Flags {
  import opened Wrappers
  import opened Strs
  import opened Seqs

  // ----- SPK_OPT_ environment variables -----

  const OPTION_VAR_PREFIX: string := "SPK_OPT_"

  /** `\w` restricted to ASCII: letters, digits and the underscore. */
  predicate IsWordChar(c: char) {
    ('a' <= c <= 'z') || ('A' <= c <= 'Z') || ('0' <= c <= '9') || c == '_'
  }

  predicate IsOptionNameChar(c: char) {
    IsWordChar(c) || c == '.'
  }

  predicate AllOptionNameChars(s: string) {
    forall k | 0 <= k < |s| :: IsOptionNameChar(s[k])
  }

  /** `OPTION_VAR_RE.match(name).group(1)`: the text after `SPK_OPT_` when it
      is one or more word characters or dots. As in Python, `$` also matches
      just before a final newline, which is then not part of the group. */
  function OptionVarName(name: string): (r: Option<string>)
    ensures r.Some? ==> r.value != [] && AllOptionNameChars(r.value)
    ensures r.Some? ==> name == OPTION_VAR_PREFIX + r.value || name == OPTION_VAR_PREFIX + r.value + "\n"
  {
    if |name| < |OPTION_VAR_PREFIX| || name[..|OPTION_VAR_PREFIX|] != OPTION_VAR_PREFIX then None
    else
      var rest := name[|OPTION_VAR_PREFIX|..];
      var body := if rest != [] && rest[|rest| - 1] == '\n' then rest[..|rest| - 1] else rest;
      assert name == OPTION_VAR_PREFIX + rest;
      assert rest != [] && rest[|rest| - 1] == '\n' ==> rest == body + "\n";
      if body != [] && AllOptionNameChars(body) then Some(body) else None
  }

  /** Every name of that form matches, and yields exactly its body. */
  lemma OptionVarNameMatches(body: string)
    requires body != [] && AllOptionNameChars(body)
    ensures OptionVarName(OPTION_VAR_PREFIX + body) == Some(body)
    ensures OptionVarName(OPTION_VAR_PREFIX + body + "\n") == Some(body)
  {
    var n1 := OPTION_VAR_PREFIX + body;
    assert n1[..|OPTION_VAR_PREFIX|] == OPTION_VAR_PREFIX && n1[|OPTION_VAR_PREFIX|..] == body;
    assert !IsOptionNameChar('\n');
    var n2 := OPTION_VAR_PREFIX + body + "\n";
    assert n2[..|OPTION_VAR_PREFIX|] == OPTION_VAR_PREFIX && n2[|OPTION_VAR_PREFIX|..] == body + "\n";
    assert (body + "\n")[..|body|] == body;
  }

  /** One variable of the environment loop: a matching name sets its
      option to the variable's value. */
  function EnvStep(opts: map<string, string>, entry: (string, string)): map<string, string>
  {
    match OptionVarName(entry.0)
    case Some(key) => opts[key := entry.1]
    case None => opts
  }

  /** After one entry an option is set when it was before or the entry
      names it, and its value is the entry's when the entry names it. */
  lemma EnvStepAt(opts: map<string, string>, entry: (string, string), k: string)
    ensures var r := EnvStep(opts, entry);
      && (k in r <==> k in opts || OptionVarName(entry.0) == Some(k))
      && (k in r ==> r[k] == if OptionVarName(entry.0) == Some(k) then entry.1 else opts[k])
  {
  }

  /** The environment loop of `get_options_from_flags`, from the options
      gathered so far. */
  function EnvFrom(opts: map<string, string>, environ: seq<(string, string)>): map<string, string>
    decreases |environ|
  {
    if environ == [] then opts
    else EnvFrom(EnvStep(opts, environ[0]), environ[1..])
  }

  /** The options the environment alone gives. */
  function EnvOptions(environ: seq<(string, string)>): map<string, string> {
    EnvFrom(map[], environ)
  }

  predicate SetsOption(environ: seq<(string, string)>, i: int, key: string) {
    0 <= i < |environ| && OptionVarName(environ[i].0) == Some(key)
  }

  /** An option comes from the environment iff some variable names it. */
  lemma {:induction false} EnvFromKeys(opts: map<string, string>, environ: seq<(string, string)>, key: string)
    ensures key in EnvFrom(opts, environ) <==> key in opts || exists i :: SetsOption(environ, i, key)
    decreases |environ|
  {
    if environ != [] {
      var next := EnvStep(opts, environ[0]);
      EnvStepAt(opts, environ[0], key);
      EnvFromKeys(next, environ[1..], key);
      assert OptionVarName(environ[0].0) == Some(key) ==> SetsOption(environ, 0, key);
      if exists i :: SetsOption(environ[1..], i, key) {
        var i :| SetsOption(environ[1..], i, key);
        assert SetsOption(environ, i + 1, key);
      }
      if exists i :: SetsOption(environ, i, key) {
        var i :| SetsOption(environ, i, key);
        if i > 0 {
          assert SetsOption(environ[1..], i - 1, key);
        }
      }
    }
  }

  /** The value of an option is that of the last variable naming it. */
  lemma {:induction false} EnvFromLastWins(opts: map<string, string>, environ: seq<(string, string)>, i: nat, key: string)
    requires SetsOption(environ, i, key)
    requires forall j | i < j < |environ| :: !SetsOption(environ, j, key)
    ensures key in EnvFrom(opts, environ) && EnvFrom(opts, environ)[key] == environ[i].1
    decreases |environ|
  {
    var next := EnvStep(opts, environ[0]);
    EnvStepAt(opts, environ[0], key);
    forall j | i - 1 < j < |environ[1..]| ensures !SetsOption(environ[1..], j, key) {
      assert !SetsOption(environ, j + 1, key);
    }
    var r := EnvFrom(next, environ[1..]);
    assert EnvFrom(opts, environ) == r;
    if i == 0 {
      assert key in next && next[key] == environ[0].1;
      EnvFromUntouched(next, environ[1..], key);
      assert key in r && r[key] == next[key];
    } else {
      assert environ[1..][i - 1] == environ[i];
      EnvFromLastWins(next, environ[1..], i - 1, key);
      assert key in r && r[key] == environ[i].1;
    }
  }

  /** An option no variable names keeps its value. */
  lemma {:induction false} EnvFromUntouched(opts: map<string, string>, environ: seq<(string, string)>, key: string)
    requires forall j | 0 <= j < |environ| :: !SetsOption(environ, j, key)
    ensures key in EnvFrom(opts, environ) <==> key in opts
    ensures key in opts ==> EnvFrom(opts, environ)[key] == opts[key]
    decreases |environ|
  {
    if environ != [] {
      assert !SetsOption(environ, 0, key);
      var next := EnvStep(opts, environ[0]);
      EnvStepAt(opts, environ[0], key);
      forall j | 0 <= j < |environ[1..]| ensures !SetsOption(environ[1..], j, key) {
        assert !SetsOption(environ, j + 1, key);
      }
      EnvFromUntouched(next, environ[1..], key);
    }
  }

  // ----- --opt pairs -----

  /** What one `--opt` value does after stripping: a text starting with `{`
      is merged as a YAML mapping, anything else assigns one option. */
  datatype PairAction = Merge(text: string) | Assign(name: string, value: string)

  /** The loop leaves a pair with neither `=` nor `:` without a name to
      assign; callers are required not to pass one. */
  predicate PairIsHandled(pair: string) {
    var p := Strip(pair);
    (p != [] && p[0] == '{') || '=' in p || ':' in p
  }

  /** A pair is split at its first `=`, or, when it has none, at its first
      `:`. */
  function ReadPair(pair: string): PairAction
    requires PairIsHandled(pair)
  {
    var p := Strip(pair);
    if p != [] && p[0] == '{' then Merge(p)
    else
      var parts := if '=' in p then SplitOnce(p, '=').value else SplitOnce(p, ':').value;
      Assign(parts.0, parts.1)
  }

  /** What `ReadPair` makes of a pair: a mapping to merge exactly when the
      stripped text starts with `{`, otherwise the name before the first `=`
      (or, without one, the first `:`) and the value after it. */
  lemma ReadPairShape(pair: string)
    requires PairIsHandled(pair)
    ensures var r := ReadPair(pair);
      && (r.Merge? <==> Strip(pair) != [] && Strip(pair)[0] == '{')
      && (r.Merge? ==> r.text == Strip(pair))
      && (r.Assign? && '=' in Strip(pair) ==> r.name + "=" + r.value == Strip(pair) && '=' !in r.name)
      && (r.Assign? && '=' !in Strip(pair) ==> r.name + ":" + r.value == Strip(pair) && ':' !in r.name)
  {
  }

  /** One pair applied to the options: `load` stands for
      `yaml.safe_load(text) or {}`, whose mapping is merged in. */
  function ApplyPair(opts: map<string, string>, pair: string, load: string -> Result<map<string, string>, string>): Result<map<string, string>, string>
    requires PairIsHandled(pair)
  {
    match ReadPair(pair)
    case Merge(text) =>
      (match load(text)
       case Ok(m) => Ok(opts + m)
       case Err(e) => Err(e))
    case Assign(name, value) => Ok(opts[name := value])
  }

  /** The `--opt` loop: the pairs applied in order. */
  function ApplyPairs(opts: map<string, string>, pairs: seq<string>, load: string -> Result<map<string, string>, string>): Result<map<string, string>, string>
    requires forall k | 0 <= k < |pairs| :: PairIsHandled(pairs[k])
    decreases |pairs|
  {
    if pairs == [] then Ok(opts)
    else
      match ApplyPair(opts, pairs[0], load)
      case Ok(next) => ApplyPairs(next, pairs[1..], load)
      case Err(e) => Err(e)
  }

  /** A pair touches an option when it assigns it or merges a mapping
      holding it (or one that cannot be read). */
  predicate Touches(pair: string, key: string, load: string -> Result<map<string, string>, string>)
    requires PairIsHandled(pair)
  {
    match ReadPair(pair)
    case Merge(text) => load(text).Err? || key in load(text).value
    case Assign(name, _) => name == key
  }

  /** A successful run of the pairs is the first pair's success followed by
      the run of the rest. */
  lemma ApplyPairsCons(opts: map<string, string>, pairs: seq<string>, load: string -> Result<map<string, string>, string>)
    requires forall k | 0 <= k < |pairs| :: PairIsHandled(pairs[k])
    requires pairs != [] && ApplyPairs(opts, pairs, load).Ok?
    ensures forall k | 0 <= k < |pairs[1..]| :: pairs[1..][k] == pairs[k + 1] && PairIsHandled(pairs[1..][k])
    ensures ApplyPair(opts, pairs[0], load).Ok?
    ensures ApplyPairs(opts, pairs, load) == ApplyPairs(ApplyPair(opts, pairs[0], load).value, pairs[1..], load)
  {
  }

  /** When the first pair applies, the run goes on from its result. */
  lemma ApplyPairsStep(opts: map<string, string>, pairs: seq<string>, load: string -> Result<map<string, string>, string>)
    requires forall k | 0 <= k < |pairs| :: PairIsHandled(pairs[k])
    requires pairs != [] && ApplyPair(opts, pairs[0], load).Ok?
    ensures forall k | 0 <= k < |pairs[1..]| :: PairIsHandled(pairs[1..][k])
    ensures ApplyPairs(opts, pairs, load) == ApplyPairs(ApplyPair(opts, pairs[0], load).value, pairs[1..], load)
  {
    assert forall k | 0 <= k < |pairs[1..]| :: pairs[1..][k] == pairs[k + 1];
  }

  /** An assigning pair sets its option and nothing else. */
  lemma AssignPair(opts: map<string, string>, pair: string, load: string -> Result<map<string, string>, string>,
                   key: string, value: string)
    requires PairIsHandled(pair) && ReadPair(pair) == Assign(key, value)
    ensures ApplyPair(opts, pair, load) == Ok(opts[key := value])
  {
  }

  /** An option no pair touches keeps its value. */
  lemma {:induction false} PairsUntouched(opts: map<string, string>, pairs: seq<string>,
                                          load: string -> Result<map<string, string>, string>, key: string)
    requires forall k | 0 <= k < |pairs| :: PairIsHandled(pairs[k])
    requires forall k | 0 <= k < |pairs| :: !Touches(pairs[k], key, load)
    requires ApplyPairs(opts, pairs, load).Ok?
    ensures key in ApplyPairs(opts, pairs, load).value <==> key in opts
    ensures key in opts ==> ApplyPairs(opts, pairs, load).value[key] == opts[key]
    decreases |pairs|
  {
    if pairs != [] {
      assert !Touches(pairs[0], key, load);
      ApplyPairsCons(opts, pairs, load);
      var next := ApplyPair(opts, pairs[0], load).value;
      assert key in next <==> key in opts;
      assert key in opts ==> next[key] == opts[key];
      PairsUntouched(next, pairs[1..], load, key);
    }
  }

  /** `--opt` pairs override whatever came before them, and a later pair
      overrides an earlier one: the value of an option assigned by a pair is
      the one it assigns, when no later pair touches the option. */
  lemma LastAssignWins(opts: map<string, string>, pairs: seq<string>,
                       load: string -> Result<map<string, string>, string>, i: nat, key: string, value: string)
    requires forall k | 0 <= k < |pairs| :: PairIsHandled(pairs[k])
    requires i < |pairs| && ReadPair(pairs[i]) == Assign(key, value)
    requires forall k | i < k < |pairs| :: !Touches(pairs[k], key, load)
    requires ApplyPairs(opts, pairs, load).Ok?
    ensures key in ApplyPairs(opts, pairs, load).value && ApplyPairs(opts, pairs, load).value[key] == value
  {
    ApplyPairsSplit(opts, pairs, load, i);
    var tail := pairs[i..];
    forall k | 0 < k < |tail| ensures PairIsHandled(tail[k]) && !Touches(tail[k], key, load) {
      assert tail[k] == pairs[i + k];
    }
    assert tail[0] == pairs[i];
    FirstAssignWins(ApplyPairs(opts, pairs[..i], load).value, tail, load, key, value);
  }

  /** Running the pairs is running the first `i` of them and then the rest
      on the result. */
  lemma {:induction false} ApplyPairsSplit(opts: map<string, string>, pairs: seq<string>,
                                           load: string -> Result<map<string, string>, string>, i: nat)
    requires forall k | 0 <= k < |pairs| :: PairIsHandled(pairs[k])
    requires i <= |pairs| && ApplyPairs(opts, pairs, load).Ok?
    ensures forall k | 0 <= k < |pairs[..i]| :: PairIsHandled(pairs[..i][k])
    ensures forall k | 0 <= k < |pairs[i..]| :: PairIsHandled(pairs[i..][k])
    ensures ApplyPairs(opts, pairs[..i], load).Ok?
    ensures ApplyPairs(opts, pairs, load) == ApplyPairs(ApplyPairs(opts, pairs[..i], load).value, pairs[i..], load)
    decreases i
  {
    if i == 0 {
      assert pairs[..0] == [] && pairs[0..] == pairs;
    } else {
      ApplyPairsCons(opts, pairs, load);
      var next := ApplyPair(opts, pairs[0], load).value;
      ApplyPairsSplit(next, pairs[1..], load, i - 1);
      var front := pairs[..i];
      assert forall k | 0 <= k < |front| :: front[k] == pairs[k];
      assert front[1..] == pairs[1..][..i - 1];
      ApplyPairsStep(opts, front, load);
      assert pairs[1..][i - 1..] == pairs[i..];
    }
  }

  /** The first pair assigns the option and no later pair touches it. */
  lemma FirstAssignWins(opts: map<string, string>, pairs: seq<string>,
                        load: string -> Result<map<string, string>, string>, key: string, value: string)
    requires forall k | 0 <= k < |pairs| :: PairIsHandled(pairs[k])
    requires pairs != [] && ReadPair(pairs[0]) == Assign(key, value)
    requires forall k | 0 < k < |pairs| :: !Touches(pairs[k], key, load)
    requires ApplyPairs(opts, pairs, load).Ok?
    ensures key in ApplyPairs(opts, pairs, load).value && ApplyPairs(opts, pairs, load).value[key] == value
  {
    ApplyPairsCons(opts, pairs, load);
    AssignPair(opts, pairs[0], load, key, value);
    var rest := pairs[1..];
    forall k | 0 <= k < |rest| ensures !Touches(rest[k], key, load) {
      assert rest[k] == pairs[k + 1];
    }
    PairsUntouched(opts[key := value], rest, load, key);
  }

  /** `get_options_from_flags`: the environment first, then the `--opt`
      pairs in order. */
  method GetOptionsFromFlags(environ: seq<(string, string)>, pairs: seq<string>,
                             load: string -> Result<map<string, string>, string>) returns (r: Result<map<string, string>, string>)
    requires forall k | 0 <= k < |pairs| :: PairIsHandled(pairs[k])
    ensures r == ApplyPairs(EnvOptions(environ), pairs, load)
  {
    var opts: map<string, string> := map[];
    var i := 0;
    while i < |environ|
      invariant 0 <= i <= |environ|
      invariant EnvFrom(opts, environ[i..]) == EnvOptions(environ)
    {
      assert environ[i..][1..] == environ[i + 1..];
      ghost var old_opts := opts;
      var found := OptionVarName(environ[i].0);
      if found.Some? {
        opts := opts[found.value := environ[i].1];
      }
      assert opts == EnvStep(old_opts, environ[i]);
      i := i + 1;
    }
    assert environ[i..] == [];
    i := 0;
    while i < |pairs|
      invariant 0 <= i <= |pairs|
      invariant ApplyPairs(opts, pairs[i..], load) == ApplyPairs(EnvOptions(environ), pairs, load)
    {
      assert pairs[i..][0] == pairs[i] && pairs[i..][1..] == pairs[i + 1..];
      var pair := Strip(pairs[i]);
      if pair != [] && pair[0] == '{' {
        var loaded := load(pair);
        if loaded.Err? {
          return Err(loaded.error);
        }
        opts := opts + loaded.value;
        i := i + 1;
        continue;
      }
      var name: string, value: string;
      if '=' in pair {
        var parts := SplitOnce(pair, '=').value;
        name, value := parts.0, parts.1;
      } else {
        var parts := SplitOnce(pair, ':').value;
        name, value := parts.0, parts.1;
      }
      opts := opts[name := value];
      i := i + 1;
    }
    r := Ok(opts);
  }

  // ----- requests -----

  const STAGE_SEPARATOR: char := '@'

  /** `parse_stage_specifier` up to the spec lookup: an error without an
      `@`, otherwise the package and the stage on either side of the first
      `@`. */
  function ParseStageSpecifier(specifier: string): (r: Result<(string, string), string>)
    ensures r.Err? <==> STAGE_SEPARATOR !in specifier
    ensures r.Err? ==> r.error == "Package stage '" + specifier + "' must contain an '@' character (eg: @build, my-pkg@install)"
    ensures r.Ok? ==> r.value.0 + [STAGE_SEPARATOR] + r.value.1 == specifier && STAGE_SEPARATOR !in r.value.0
  {
    match SplitOnce(specifier, STAGE_SEPARATOR)
    case None => Err("Package stage '" + specifier + "' must contain an '@' character (eg: @build, my-pkg@install)")
    case Some(parts) => Ok(parts)
  }

  /** What `parse_requests_using_flags` does with a stage. */
  datatype StageAction = SourceNotSupported | BuildRequirements | InstallRequirements | UnknownStage(message: string)

  function StageActionFor(stage: string): (r: StageAction)
    ensures r == SourceNotSupported <==> stage == "source"
    ensures r == BuildRequirements <==> stage == "build"
    ensures r == InstallRequirements <==> stage == "install"
    ensures r.UnknownStage? ==> r.message == "Unknown stage '" + stage + "', should be one of: 'source', 'build', 'install'"
  {
    if stage == "source" then SourceNotSupported
    else if stage == "build" then BuildRequirements
    else if stage == "install" then InstallRequirements
    else UnknownStage("Unknown stage '" + stage + "', should be one of: 'source', 'build', 'install'")
  }

  /** A request read as YAML is either a bare string or a mapping. */
  datatype ParsedRequest = Text(text: string) | Mapping(fields: map<string, string>)

  const PRERELEASE_POLICY: string := "prereleasePolicy"
  const INCLUDE_ALL: string := "IncludeAll"

  /** The request data of `parse_requests_using_flags`: a string is the
      package name; with `--pre`, a missing pre-release policy becomes
      `IncludeAll` and an explicit one is kept. */
  function RequestData(parsed: ParsedRequest, pre: bool): (r: map<string, string>)
    ensures var data := if parsed.Text? then map["pkg" := parsed.text] else parsed.fields;
      && (!pre ==> r == data)
      && (pre ==> PRERELEASE_POLICY in r)
      && (PRERELEASE_POLICY in data ==> r[PRERELEASE_POLICY] == data[PRERELEASE_POLICY])
      && (pre && PRERELEASE_POLICY !in data ==> r[PRERELEASE_POLICY] == INCLUDE_ALL)
      && (forall k | k != PRERELEASE_POLICY :: (k in r <==> k in data) && (k in r ==> r[k] == data[k]))
  {
    var data := if parsed.Text? then map["pkg" := parsed.text] else parsed.fields;
    if pre && PRERELEASE_POLICY !in data then data[PRERELEASE_POLICY := INCLUDE_ALL] else data
  }

  // ----- repositories -----

  const LOCAL: string := "local"

  /** The names in the order they are assigned: `local` when asked for,
      then the enabled ones. */
  function RepoNames(localRepo: bool, enabled: seq<string>): seq<string> {
    (if localRepo then [LOCAL] else []) + enabled
  }

  /** The keys of an ordered dict filled from `s`: each name at the place it
      first appears. */
  function FirstOccurrences<T(==)>(s: seq<T>): seq<T>
    decreases |s|
  {
    if s == [] then []
    else
      var d := FirstOccurrences(s[..|s| - 1]);
      if s[|s| - 1] in d then d else d + [s[|s| - 1]]
  }

  /** The index of the first `x` in `s`. */
  function FirstIndex<T(==)>(s: seq<T>, x: T): (i: nat)
    requires x in s
    ensures i < |s| && s[i] == x
    ensures forall k | 0 <= k < i :: s[k] != x
  {
    if s[0] == x then 0
    else
      assert s == [s[0]] + s[1..];
      1 + FirstIndex(s[1..], x)
  }

  lemma FirstIndexSnoc<T>(s: seq<T>, y: T, x: T)
    requires y in s
    ensures FirstIndex(s + [x], y) == FirstIndex(s, y)
  {
    var i := FirstIndex(s, y);
    assert (s + [x])[i] == y;
    assert forall k | 0 <= k < i :: (s + [x])[k] == s[k];
  }

  /** Each name once, exactly the names given, in the order of their first
      appearance. */
  lemma {:induction false} FirstOccurrencesOrder<T>(s: seq<T>)
    ensures NoDup(FirstOccurrences(s))
    ensures forall x :: x in FirstOccurrences(s) <==> x in s
    ensures forall i, j | 0 <= i < j < |FirstOccurrences(s)| ::
      FirstIndex(s, FirstOccurrences(s)[i]) < FirstIndex(s, FirstOccurrences(s)[j])
    decreases |s|
  {
    if s != [] {
      var p := s[..|s| - 1];
      var x := s[|s| - 1];
      assert s == p + [x];
      FirstOccurrencesOrder(p);
      var d := FirstOccurrences(p);
      forall y | y in p ensures FirstIndex(s, y) == FirstIndex(p, y) {
        FirstIndexSnoc(p, y, x);
      }
      if x !in d {
        assert FirstIndex(s, x) == |p|;
        var r := d + [x];
        forall i, j | 0 <= i < j < |r| ensures FirstIndex(s, r[i]) < FirstIndex(s, r[j]) {
          assert r[i] == d[i] && d[i] in d;
          if j < |d| {
            assert r[j] == d[j];
          }
        }
      }
    }
  }

  /** The first name given comes first. */
  lemma {:induction false} FirstOccurrencesHead<T>(s: seq<T>)
    requires s != []
    ensures FirstOccurrences(s) != [] && FirstOccurrences(s)[0] == s[0]
    decreases |s|
  {
    if |s| > 1 {
      var p := s[..|s| - 1];
      assert p[0] == s[0];
      FirstOccurrencesHead(p);
    }
  }

  /** With `--local-repo`, `local` is the first repository. */
  lemma LocalFirst(enabled: seq<string>)
    ensures FirstOccurrences(RepoNames(true, enabled))[0] == LOCAL
  {
    FirstOccurrencesHead(RepoNames(true, enabled));
  }

  /** The ordered dict after `local` (when asked for) and the enabled names
      in `prefix` have been assigned. */
  ghost predicate ReposFilled<Repo>(names: seq<string>, repos: map<string, Repo>, localRepo: bool, prefix: seq<string>,
                                    localRepository: Repo, remote: string -> Repo) {
    && names == FirstOccurrences(RepoNames(localRepo, prefix))
    && (forall n :: n in repos <==> n in names)
    && (forall n | n in repos :: repos[n] == if n in prefix then remote(n) else localRepository)
  }

  /** Before any flag: the local repository alone, when it is on. */
  lemma FillStart<Repo>(names: seq<string>, repos: map<string, Repo>, localRepo: bool, localRepository: Repo, remote: string -> Repo)
    requires names == (if localRepo then [LOCAL] else [])
    requires repos == (if localRepo then map[LOCAL := localRepository] else map[])
    ensures ReposFilled(names, repos, localRepo, [], localRepository, remote)
  {
    var all := RepoNames(localRepo, []);
    if localRepo {
      assert all == [LOCAL] && all[..0] == [];
      assert FirstOccurrences(all) == [LOCAL];
    } else {
      assert all == [];
    }
  }

  lemma FillStep<Repo>(names: seq<string>, repos: map<string, Repo>, localRepo: bool, enabled: seq<string>, i: nat,
                       localRepository: Repo, remote: string -> Repo)
    requires i < |enabled| && ReposFilled(names, repos, localRepo, enabled[..i], localRepository, remote)
    ensures enabled[i] in repos ==>
      ReposFilled(names, repos[enabled[i] := remote(enabled[i])], localRepo, enabled[..i + 1], localRepository, remote)
    ensures enabled[i] !in repos ==>
      ReposFilled(names + [enabled[i]], repos[enabled[i] := remote(enabled[i])], localRepo, enabled[..i + 1], localRepository, remote)
  {
    var name := enabled[i];
    assert enabled[..i + 1] == enabled[..i] + [name];
    var all := RepoNames(localRepo, enabled[..i + 1]);
    assert all[..|all| - 1] == RepoNames(localRepo, enabled[..i]);
    assert all[|all| - 1] == name;
  }

  /** `get_repos_from_repo_flags`: the ordered dict as its keys in order and
      its values; a name assigned again keeps its place and takes the new
      value, so an enabled `local` replaces the local repository. */
  method GetReposFromRepoFlags<Repo>(localRepo: bool, enabled: seq<string>, localRepository: Repo, remote: string -> Repo)
    returns (names: seq<string>, repos: map<string, Repo>)
    ensures names == FirstOccurrences(RepoNames(localRepo, enabled))
    ensures forall n :: n in repos <==> n in names
    ensures forall n | n in repos :: repos[n] == if n in enabled then remote(n) else localRepository
  {
    names, repos := [], map[];
    if localRepo {
      names, repos := [LOCAL], map[LOCAL := localRepository];
    }
    FillStart(names, repos, localRepo, localRepository, remote);
    assert enabled[..0] == [];
    var i := 0;
    while i < |enabled|
      invariant 0 <= i <= |enabled|
      invariant ReposFilled(names, repos, localRepo, enabled[..i], localRepository, remote)
    {
      var name := enabled[i];
      FillStep(names, repos, localRepo, enabled, i, localRepository, remote);
      if name !in repos {
        names := names + [name];
      }
      repos := repos[name := remote(name)];
      i := i + 1;
    }
    assert enabled[..i] == enabled;
  }
}
