/** The Python solver: candidate validation, the binary-only switch, the
    initial state built from the requests, one solver step over the
    candidates of the next request, and the step/backtrack loop with its
    history. The graph module, the candidate lists, spec reads and the
    build-environment solve are reached through a `Graph` of functions. */
module Solve {
  import opened Wrappers
  import opened Seqs
  import Validation
  import PyIdents

  /** A source build is known by the digest `src`. */
  predicate IsSourceIdent(f: PyIdents.Fields) {
    f.build == Some(PyIdents.PyBuild("src"))
  }

  /** The parts of a package spec the solver reads. */
  datatype PySpec = PySpec(pkg: PyIdents.Fields)

  /** A package request, by the ident it asks for. */
  datatype PkgRequest = PkgRequest(pkg: PyIdents.Fields)

  /** The graph changes that build the initial state. */
  datatype Change = RequestPackage(request: PkgRequest) | RequestVar(name: string, value: string)
                  | SetOptions(options: map<string, string>)

  /** Where a candidate comes from: a repository, or embedded in another
      package's spec. */
  datatype Source<R> = FromRepo(repo: R) | EmbeddedIn(parent: PySpec)

  datatype Candidate<R> = Candidate(spec: PySpec, source: Source<R>)

  datatype Note = SkipPackageNote(pkg: PyIdents.Fields, reason: string)

  /** A decision with the notes attached to it. `env` stands for the solved
      build environment of a package built from source. */
  datatype DecisionKind<S, R> =
    | Initial(changes: seq<Change>)
    | ResolvePackage(spec: PySpec, source: Source<R>)
    | BuildPackage(spec: PySpec, source: Source<R>, env: S)
    | StepBack(message: string, destination: Option<S>)

  datatype Decision<S, R> = Decision(kind: DecisionKind<S, R>, notes: seq<Note>)

  /** `OutOfOptions` and any other exception a step raises. */
  datatype StepError = OutOfOptions(package: string, notes: seq<Note>) | Failure(message: string)

  datatype ReadError = SpecNotFound | ReadFailed(message: string)

  /** A failed build-environment solve: a `SolverError`, or any other
      exception. */
  datatype BuildError = SolverFailure(message: string) | Raised(message: string)

  datatype Validator = BinaryOnly | Policy(name: string)

  /** The collaborators: the graph module (default and dead states, applying
      a change, the next request, branching), the repository candidates of
      a package, spec reads, the validators' verdicts and the nested solve
      of a source build's environment. */
  datatype Graph<!S, !R> = Graph(
    defaultState: S,
    deadState: S,
    apply: (Change, S) -> S,
    hasPkgRequests: S -> bool,
    nextRequest: S -> Option<PkgRequest>,
    addBranch: (S, Decision<S, R>) -> Result<S, string>,
    listCandidates: (seq<R>, string) -> seq<Candidate<R>>,
    readSpec: (R, PyIdents.Fields) -> Result<PySpec, ReadError>,
    validate: (Validator, S, PySpec) -> Validation.Compatibility,
    resolveBuild: (seq<R>, PySpec, S) -> Result<S, BuildError>)

  const CANNOT_BUILD_EMBEDDED: string := "cannot build embedded source package"
  const NO_VERSION_SPEC: string := "cannot build from source, version spec not available"
  const BUILD_ENV_FAILED: string := "failed to resolve build env: "
  const NO_REPOSITORIES: string := "No configured package repositories."
  const UNHANDLED_REQUEST: string := "unhandled request type: "

  // ----- validation -----

  /** `_validate`: the first incompatible verdict in validator order, or
      compatible when every validator passes. */
  function ValidateAll<S>(validators: seq<Validator>, state: S, spec: PySpec,
                          validate: (Validator, S, PySpec) -> Validation.Compatibility): (r: Validation.Compatibility)
    ensures r.Compatible? <==> forall i | 0 <= i < |validators| :: validate(validators[i], state, spec).Compatible?
    ensures r.Incompatible? ==>
      exists i | 0 <= i < |validators| ::
        && r == validate(validators[i], state, spec)
        && forall j | 0 <= j < i :: validate(validators[j], state, spec).Compatible?
  {
    if validators == [] then Validation.Compatible
    else
      var c := validate(validators[0], state, spec);
      if c.Incompatible? then c
      else
        var rest := ValidateAll(validators[1..], state, spec, validate);
        assert forall i | 1 <= i < |validators| :: validators[1..][i - 1] == validators[i];
        rest
  }

  // ----- the binary-only switch -----

  function NotBinaryOnly(v: Validator): bool { !v.BinaryOnly? }

  /** The validators `set_binary_only` leaves: every `BinaryOnly` removed,
      one put in front when the switch is on. */
  function WithBinaryOnly(validators: seq<Validator>, binaryOnly: bool): seq<Validator> {
    (if binaryOnly then [BinaryOnly] else []) + Filter(validators, NotBinaryOnly)
  }

  function CountBinaryOnly(vs: seq<Validator>): nat {
    if vs == [] then 0 else (if vs[0].BinaryOnly? then 1 else 0) + CountBinaryOnly(vs[1..])
  }

  lemma {:induction false} FilterNoBinaryOnly(vs: seq<Validator>)
    ensures CountBinaryOnly(Filter(vs, NotBinaryOnly)) == 0
  {
    if vs != [] {
      FilterNoBinaryOnly(vs[1..]);
      if NotBinaryOnly(vs[0]) {
        assert ([vs[0]] + Filter(vs[1..], NotBinaryOnly))[1..] == Filter(vs[1..], NotBinaryOnly);
      }
    }
  }

  /** With the switch on there is exactly one `BinaryOnly`, in front; with
      it off there is none; the other validators keep their order. */
  lemma BinaryOnlySwitch(validators: seq<Validator>, binaryOnly: bool)
    ensures binaryOnly ==> WithBinaryOnly(validators, binaryOnly)[0] == BinaryOnly
    ensures CountBinaryOnly(WithBinaryOnly(validators, binaryOnly)) == (if binaryOnly then 1 else 0)
    ensures Filter(WithBinaryOnly(validators, binaryOnly), NotBinaryOnly) == Filter(validators, NotBinaryOnly)
  {
    var rest := Filter(validators, NotBinaryOnly);
    FilterNoBinaryOnly(validators);
    FilterIdempotent(validators, NotBinaryOnly);
    if binaryOnly {
      assert ([BinaryOnly] + rest)[1..] == rest;
    } else {
      assert [] + rest == rest;
    }
  }

  /** Switching twice with the same argument is switching once. */
  lemma BinaryOnlyIdempotent(validators: seq<Validator>, binaryOnly: bool)
    ensures WithBinaryOnly(WithBinaryOnly(validators, binaryOnly), binaryOnly) == WithBinaryOnly(validators, binaryOnly)
  {
    BinaryOnlySwitch(validators, binaryOnly);
  }

  // ----- the initial state -----

  /** The changes applied left to right, starting from `state`. */
  function ApplyAll<S>(apply: (Change, S) -> S, changes: seq<Change>, state: S): S
    decreases |changes|
  {
    if changes == [] then state else ApplyAll(apply, changes[1..], apply(changes[0], state))
  }

  /** One more change is applied last. */
  lemma {:induction false} ApplyAllSnoc<S>(apply: (Change, S) -> S, changes: seq<Change>, c: Change, state: S)
    ensures ApplyAll(apply, changes + [c], state) == apply(c, ApplyAll(apply, changes, state))
    decreases |changes|
  {
    if changes != [] {
      assert (changes + [c])[1..] == changes[1..] + [c];
      ApplyAllSnoc(apply, changes[1..], c, apply(changes[0], state));
    }
  }

  // ----- one step -----

  /** What happens to one candidate. */
  datatype Verdict<S, R> = Skip(note: Note) | Take(kind: DecisionKind<S, R>) | Fail(message: string)

  /** The checks after the source-build checks: validation, then for a
      source build the nested solve of its build environment. */
  function Admit<S, R>(g: Graph<S, R>, repos: seq<R>, validators: seq<Validator>, state: S,
                       spec: PySpec, source: Source<R>, fromSource: bool): Verdict<S, R>
  {
    var compat := ValidateAll(validators, state, spec, g.validate);
    if compat.Incompatible? then Skip(SkipPackageNote(spec.pkg, compat.reason))
    else if !fromSource then Take(ResolvePackage(spec, source))
    else match g.resolveBuild(repos, spec, state)
      case Ok(env) => Take(BuildPackage(spec, source, env))
      case Err(SolverFailure(m)) => Skip(SkipPackageNote(spec.pkg, BUILD_ENV_FAILED + m))
      case Err(Raised(m)) => Fail(m)
  }

  /** A candidate is taken only when every validator accepts it; it is then
      resolved, or built with its resolved build environment; an
      incompatible candidate is skipped with the validator's reason, and
      only a failed build environment is an error. */
  lemma AdmitOutcome<S, R>(g: Graph<S, R>, repos: seq<R>, validators: seq<Validator>, state: S,
                           spec: PySpec, source: Source<R>, fromSource: bool)
    ensures var r := Admit(g, repos, validators, state, spec, source, fromSource);
      && (r.Take? ==> ValidateAll(validators, state, spec, g.validate).Compatible?)
      && (r.Take? ==> (r.kind.ResolvePackage? || r.kind.BuildPackage?) && r.kind.spec == spec && r.kind.source == source)
      && (r.Take? ==> (r.kind.BuildPackage? <==> fromSource))
      && (r.Take? && fromSource ==> g.resolveBuild(repos, spec, state) == Ok(r.kind.env))
      && (ValidateAll(validators, state, spec, g.validate).Incompatible? ==>
            r == Skip(SkipPackageNote(spec.pkg, ValidateAll(validators, state, spec, g.validate).reason)))
      && (r.Fail? ==> fromSource && g.resolveBuild(repos, spec, state) == Err(Raised(r.message)))
      && (!fromSource ==> !r.Fail?)
  {
  }

  /** A candidate is built from source when it is a source build and the
      request does not ask for the source build itself. */
  predicate FromSource<R>(request: PkgRequest, c: Candidate<R>) {
    IsSourceIdent(c.spec.pkg) && !IsSourceIdent(request.pkg)
  }

  /** The loop body of `_step_state` for one candidate. A source build needs
      a repository and the version spec read from it, which is then the
      spec validated. */
  function Judge<S, R>(g: Graph<S, R>, repos: seq<R>, validators: seq<Validator>, state: S,
                       request: PkgRequest, c: Candidate<R>): Verdict<S, R>
  {
    if !FromSource(request, c) then Admit(g, repos, validators, state, c.spec, c.source, false)
    else match c.source
      case EmbeddedIn(_) => Skip(SkipPackageNote(c.spec.pkg, CANNOT_BUILD_EMBEDDED))
      case FromRepo(repo) =>
        match PyIdents.WithBuild(c.spec.pkg, None)
        case Err(e) => Fail(e)
        case Ok(id) =>
          match g.readSpec(repo, id)
          case Err(SpecNotFound) => Skip(SkipPackageNote(c.spec.pkg, NO_VERSION_SPEC))
          case Err(ReadFailed(m)) => Fail(m)
          case Ok(spec) => Admit(g, repos, validators, state, spec, c.source, true)
  }

  /** A candidate not built from source goes straight to validation; an
      embedded source is skipped; a source build that is taken was
      validated as the version spec read back from its repository; a take
      keeps the candidate's source and builds exactly when building from
      source. */
  lemma JudgeOutcome<S, R>(g: Graph<S, R>, repos: seq<R>, validators: seq<Validator>, state: S,
                           request: PkgRequest, c: Candidate<R>)
    ensures var r := Judge(g, repos, validators, state, request, c);
      && (!FromSource(request, c) ==> r == Admit(g, repos, validators, state, c.spec, c.source, false))
      && (FromSource(request, c) && c.source.EmbeddedIn? ==> r == Skip(SkipPackageNote(c.spec.pkg, CANNOT_BUILD_EMBEDDED)))
      && (r.Take? ==> r.kind.ResolvePackage? || r.kind.BuildPackage?)
      && (r.Take? && FromSource(request, c) ==>
            && c.source.FromRepo? && PyIdents.WithBuild(c.spec.pkg, None).Ok?
            && g.readSpec(c.source.repo, PyIdents.WithBuild(c.spec.pkg, None).value) == Ok(r.kind.spec))
      && (r.Take? ==> r.kind.source == c.source && (r.kind.BuildPackage? <==> FromSource(request, c)))
  {
    if FromSource(request, c) && c.source.FromRepo? {
      match PyIdents.WithBuild(c.spec.pkg, None)
      case Err(_) =>
      case Ok(id) =>
        match g.readSpec(c.source.repo, id)
        case Err(_) =>
        case Ok(spec) => AdmitOutcome(g, repos, validators, state, spec, c.source, true);
    } else if !FromSource(request, c) {
      AdmitOutcome(g, repos, validators, state, c.spec, c.source, false);
    }
  }

  /** The position of the first candidate that is not skipped, or the
      length when every candidate is. */
  function FirstStop<S, R>(g: Graph<S, R>, repos: seq<R>, validators: seq<Validator>, state: S,
                           request: PkgRequest, cands: seq<Candidate<R>>): (k: nat)
    ensures k <= |cands|
    ensures forall j | 0 <= j < k :: Judge(g, repos, validators, state, request, cands[j]).Skip?
    ensures k < |cands| ==> !Judge(g, repos, validators, state, request, cands[k]).Skip?
  {
    if cands == [] then 0
    else if !Judge(g, repos, validators, state, request, cands[0]).Skip? then 0
    else
      var k := 1 + FirstStop(g, repos, validators, state, request, cands[1..]);
      assert forall j | 1 <= j < k :: cands[j] == cands[1..][j - 1];
      k
  }

  /** The notes of the skipped candidates, in order. */
  function SkipNotes<S, R>(g: Graph<S, R>, repos: seq<R>, validators: seq<Validator>, state: S,
                           request: PkgRequest, cands: seq<Candidate<R>>): seq<Note>
  {
    if cands == [] then []
    else
      var v := Judge(g, repos, validators, state, request, cands[0]);
      (if v.Skip? then [v.note] else []) + SkipNotes(g, repos, validators, state, request, cands[1..])
  }

  /** The decision or error a candidate that is not skipped leads to. */
  function Stop<S, R>(v: Verdict<S, R>, notes: seq<Note>): Result<Decision<S, R>, StepError>
    requires !v.Skip?
  {
    if v.Take? then Ok(Decision(v.kind, notes)) else Err(Failure(v.message))
  }

  /** The candidate loop of `_step_state`: the decision for the first
      candidate not skipped, carrying the notes of the ones before it; or
      `OutOfOptions` with every note when all are skipped. The second part
      is what is left of the candidates. */
  function Scan<S, R>(g: Graph<S, R>, repos: seq<R>, validators: seq<Validator>, state: S,
                      request: PkgRequest, cands: seq<Candidate<R>>, notes: seq<Note>): (Result<Decision<S, R>, StepError>, seq<Candidate<R>>)
    decreases |cands|
  {
    if cands == [] then (Err(OutOfOptions(request.pkg.name, notes)), [])
    else
      var v := Judge(g, repos, validators, state, request, cands[0]);
      match v
      case Skip(n) => Scan(g, repos, validators, state, request, cands[1..], notes + [n])
      case Take(kind) => (Ok(Decision(kind, notes)), cands[1..])
      case Fail(m) => (Err(Failure(m)), cands[1..])
  }

  /** The scan in terms of the first stop: with every candidate skipped,
      out of options with every note; otherwise the first candidate not
      skipped decides, with the notes of those before it, and the rest
      after it are left. */
  lemma {:induction false} ScanShape<S, R>(g: Graph<S, R>, repos: seq<R>, validators: seq<Validator>, state: S,
                                           request: PkgRequest, cands: seq<Candidate<R>>, notes: seq<Note>)
    ensures var r := Scan(g, repos, validators, state, request, cands, notes);
      var k := FirstStop(g, repos, validators, state, request, cands);
      k == |cands| ==> r == (Err(OutOfOptions(request.pkg.name, notes + SkipNotes(g, repos, validators, state, request, cands))), [])
    ensures var r := Scan(g, repos, validators, state, request, cands, notes);
      var k := FirstStop(g, repos, validators, state, request, cands);
      k < |cands| ==>
        && r.1 == cands[k + 1..]
        && r.0 == Stop(Judge(g, repos, validators, state, request, cands[k]),
                       notes + SkipNotes(g, repos, validators, state, request, cands[..k]))
    decreases |cands|
  {
    if cands == [] {
      assert notes + [] == notes;
    } else {
      var v := Judge(g, repos, validators, state, request, cands[0]);
      match v
      case Skip(n) =>
        ScanShape(g, repos, validators, state, request, cands[1..], notes + [n]);
        SkipMovesStop(g, repos, validators, state, request, cands);
        SkipNotesCons(g, repos, validators, state, request, cands, notes, n);
        var k := FirstStop(g, repos, validators, state, request, cands[1..]);
        if k < |cands| - 1 {
          assert cands[1..][k] == cands[k + 1] && cands[1..][k + 1..] == cands[k + 2..];
          SkipNotesFront(g, repos, validators, state, request, cands, notes, n, k);
        }
      case Take(kind) =>
        assert cands[..0] == [] && notes + [] == notes;
      case Fail(m) =>
        assert cands[..0] == [] && notes + [] == notes;
    }
  }

  /** A skipped first candidate moves the stop by one. */
  lemma SkipMovesStop<S, R>(g: Graph<S, R>, repos: seq<R>, validators: seq<Validator>, state: S,
                            request: PkgRequest, cands: seq<Candidate<R>>)
    requires cands != [] && Judge(g, repos, validators, state, request, cands[0]).Skip?
    ensures FirstStop(g, repos, validators, state, request, cands) == 1 + FirstStop(g, repos, validators, state, request, cands[1..])
  {
  }

  /** A skipped first candidate contributes its note first. */
  lemma SkipNotesCons<S, R>(g: Graph<S, R>, repos: seq<R>, validators: seq<Validator>, state: S,
                            request: PkgRequest, cands: seq<Candidate<R>>, notes: seq<Note>, n: Note)
    requires cands != [] && Judge(g, repos, validators, state, request, cands[0]) == Skip(n)
    ensures notes + [n] + SkipNotes(g, repos, validators, state, request, cands[1..])
         == notes + SkipNotes(g, repos, validators, state, request, cands)
  {
    var tail := SkipNotes(g, repos, validators, state, request, cands[1..]);
    assert SkipNotes(g, repos, validators, state, request, cands) == [n] + tail;
    assert notes + [n] + tail == notes + ([n] + tail);
  }

  /** The same for the candidates up to a stop `k` of the rest. */
  lemma SkipNotesFront<S, R>(g: Graph<S, R>, repos: seq<R>, validators: seq<Validator>, state: S,
                             request: PkgRequest, cands: seq<Candidate<R>>, notes: seq<Note>, n: Note, k: nat)
    requires k < |cands| && Judge(g, repos, validators, state, request, cands[0]) == Skip(n)
    ensures notes + [n] + SkipNotes(g, repos, validators, state, request, cands[1..][..k])
         == notes + SkipNotes(g, repos, validators, state, request, cands[..k + 1])
  {
    var front := cands[..k + 1];
    assert front[0] == cands[0] && front[1..] == cands[1..][..k];
    SkipNotesCons(g, repos, validators, state, request, front, notes, n);
  }

  /** One step of the scan: a skipped first candidate adds its note and
      the scan goes on with the rest; any other verdict ends it. */
  lemma ScanStep<S, R>(g: Graph<S, R>, repos: seq<R>, validators: seq<Validator>, state: S,
                       request: PkgRequest, cands: seq<Candidate<R>>, notes: seq<Note>)
    requires cands != []
    ensures var v := Judge(g, repos, validators, state, request, cands[0]);
      && (v.Skip? ==> Scan(g, repos, validators, state, request, cands, notes)
                      == Scan(g, repos, validators, state, request, cands[1..], notes + [v.note]))
      && (!v.Skip? ==> Scan(g, repos, validators, state, request, cands, notes) == (Stop(v, notes), cands[1..]))
  {
  }

  /** Every candidate is skipped. */
  predicate AllSkipped<S, R>(g: Graph<S, R>, repos: seq<R>, validators: seq<Validator>, state: S,
                             request: PkgRequest, cands: seq<Candidate<R>>) {
    forall k | 0 <= k < |cands| :: Judge(g, repos, validators, state, request, cands[k]).Skip?
  }

  /** `_step_state`'s three outcomes over the candidates: `OutOfOptions`
      exactly when every candidate is skipped, with all their notes; else
      the outcome of the first candidate not skipped, with the notes of
      those before it, and the candidates after it left over. */
  lemma ScanOutcome<S, R>(g: Graph<S, R>, repos: seq<R>, validators: seq<Validator>, state: S,
                          request: PkgRequest, cands: seq<Candidate<R>>)
    ensures var r := Scan(g, repos, validators, state, request, cands, []);
      (r.0.Err? && r.0.error.OutOfOptions?) <==> AllSkipped(g, repos, validators, state, request, cands)
    ensures AllSkipped(g, repos, validators, state, request, cands) ==>
      Scan(g, repos, validators, state, request, cands, []) ==
        (Err(OutOfOptions(request.pkg.name, SkipNotes(g, repos, validators, state, request, cands))), [])
    ensures Scan(g, repos, validators, state, request, cands, []).0.Ok? ==>
      exists k | 0 <= k < |cands| ::
        && AllSkipped(g, repos, validators, state, request, cands[..k])
        && Judge(g, repos, validators, state, request, cands[k]).Take?
        && Scan(g, repos, validators, state, request, cands, []) ==
             (Ok(Decision(Judge(g, repos, validators, state, request, cands[k]).kind,
                          SkipNotes(g, repos, validators, state, request, cands[..k]))), cands[k + 1..])
  {
    ScanShape(g, repos, validators, state, request, cands, []);
    var k := FirstStop(g, repos, validators, state, request, cands);
    var noNotes: seq<Note> := [];
    assert noNotes + SkipNotes(g, repos, validators, state, request, cands) == SkipNotes(g, repos, validators, state, request, cands);
    if k < |cands| {
      assert noNotes + SkipNotes(g, repos, validators, state, request, cands[..k]) == SkipNotes(g, repos, validators, state, request, cands[..k]);
      assert !AllSkipped(g, repos, validators, state, request, cands);
      assert AllSkipped(g, repos, validators, state, request, cands[..k]);
    }
  }

  // ----- backtracking -----

  function FailedToResolve(package: string): string {
    "failed to resolve '" + package + "'"
  }

  /** The `except` branches of `solve`: the last history entry is popped and
      the step goes back to its state. When the history is empty, running
      out of options steps back to nowhere and any other error to the dead
      state. */
  function Recover<S, R>(history: seq<S>, err: StepError, dead: S): (r: (seq<S>, Decision<S, R>))
    ensures |r.0| == (if history == [] then 0 else |history| - 1) && r.0 == history[..|r.0|]
    ensures r.1.kind.StepBack?
    ensures history != [] ==> r.1.kind.destination == Some(history[|history| - 1])
    ensures history == [] ==> (r.1.kind.destination.None? <==> err.OutOfOptions?)
    ensures history == [] && err.Failure? ==> r.1.kind.destination == Some(dead)
    ensures err.OutOfOptions? ==> r.1.kind.message == FailedToResolve(err.package) && r.1.notes == err.notes
    ensures err.Failure? ==> r.1.kind.message == err.message && r.1.notes == []
  {
    var rest := if history == [] then [] else history[..|history| - 1];
    match err
    case OutOfOptions(package, notes) =>
      var previous := if history == [] then None else Some(history[|history| - 1]);
      (rest, Decision(StepBack(FailedToResolve(package), previous), notes))
    case Failure(message) =>
      var previous := if history == [] then dead else history[|history| - 1];
      (rest, Decision(StepBack(message, Some(previous)), []))
  }

  // ----- the solver object -----

  /** What `add_request` accepts. */
  datatype RequestInput =
    | IdentArg(ident: PyIdents.Fields)
    | TextArg(text: string)
    | PkgRequestArg(request: PkgRequest)
    | VarRequestArg(name: string, value: string)
    | ChangeArg(change: Change)
    | OtherArg(typeName: string)

  /** Text is read as a package request. */
  function TextChange(text: string, fromText: string -> Result<PkgRequest, string>): (r: Result<Change, string>)
    ensures r.Ok? <==> fromText(text).Ok?
    ensures r.Ok? ==> r.value == RequestPackage(fromText(text).value)
    ensures r.Err? ==> r.error == fromText(text).error
  {
    match fromText(text)
    case Ok(request) => Ok(RequestPackage(request))
    case Err(e) => Err(e)
  }

  /** The change `add_request` appends for an input: an ident by its text,
      text read as a package request, requests wrapped in their change. */
  function RequestChange(input: RequestInput, fromText: string -> Result<PkgRequest, string>): (r: Result<Change, string>)
    ensures input.IdentArg? ==> r == TextChange(PyIdents.StrCorrected(input.ident), fromText)
    ensures input.TextArg? ==> r == TextChange(input.text, fromText)
    ensures input.OtherArg? ==> r == Err(UNHANDLED_REQUEST + input.typeName)
    ensures !input.IdentArg? && !input.TextArg? && !input.OtherArg? ==> r.Ok?
  {
    match input
    case IdentArg(ident) => TextChange(PyIdents.StrCorrected(ident), fromText)
    case TextArg(text) => TextChange(text, fromText)
    case PkgRequestArg(request) => Ok(RequestPackage(request))
    case VarRequestArg(name, value) => Ok(RequestVar(name, value))
    case ChangeArg(change) => Ok(change)
    case OtherArg(typeName) => Err(UNHANDLED_REQUEST + typeName)
  }

  /** A graph node: its state and the candidate iterators stored on it, by
      package name. */
  class Node<S, R> {
    const state: S
    var iterators: map<string, seq<Candidate<R>>>

    constructor (state: S)
      ensures this.state == state && iterators == map[]
    {
      this.state := state;
      iterators := map[];
    }
  }

  datatype SolveError = FailedToResolveAll | OutOfFuel

  const FAILED_TO_RESOLVE: string := "Failed to resolve"

  class Solver<S(==), R> {
    var repos: seq<R>
    var builders: seq<Change>
    var validators: seq<Validator>
    /** `default_validators()`, defined outside the modelled files. */
    const defaults: seq<Validator>

    constructor (defaults: seq<Validator>)
      ensures repos == [] && builders == [] && validators == defaults && this.defaults == defaults
    {
      repos := [];
      builders := [];
      validators := defaults;
      this.defaults := defaults;
    }

    /** `reset`: no repositories, no initial changes, the default
        validators. */
    method Reset()
      modifies this
      ensures repos == [] && builders == [] && validators == defaults
    {
      repos := [];
      builders := [];
      validators := defaults;
    }

    method AddRepository(repo: R)
      modifies this
      ensures repos == old(repos) + [repo]
      ensures builders == old(builders) && validators == old(validators)
    {
      repos := repos + [repo];
    }

    /** `add_request`: appends the change for the input; an input of an
        unhandled type, or text that does not read as a request, is an
        error and nothing is appended. */
    method AddRequest(input: RequestInput, fromText: string -> Result<PkgRequest, string>) returns (r: Result<(), string>)
      modifies this
      ensures RequestChange(input, fromText).Ok? ==> r.Ok? && builders == old(builders) + [RequestChange(input, fromText).value]
      ensures RequestChange(input, fromText).Err? ==> r == Err(RequestChange(input, fromText).error) && builders == old(builders)
      ensures repos == old(repos) && validators == old(validators)
    {
      // An ident is printed and then read like any other text.
      var text: Option<string> := None;
      if input.IdentArg? {
        text := Some(PyIdents.StrCorrected(input.ident));
      } else if input.TextArg? {
        text := Some(input.text);
      }
      var change: Change;
      if text.Some? {
        var parsed := fromText(text.value);
        if parsed.Err? {
          return Err(parsed.error);
        }
        change := RequestPackage(parsed.value);
      } else if input.PkgRequestArg? {
        change := RequestPackage(input.request);
      } else if input.VarRequestArg? {
        change := RequestVar(input.name, input.value);
      } else if input.ChangeArg? {
        change := input.change;
      } else {
        return Err(UNHANDLED_REQUEST + input.typeName);
      }
      builders := builders + [change];
      r := Ok(());
    }

    /** `update_options`: appends a change that sets the options. */
    method UpdateOptions(options: map<string, string>)
      modifies this
      ensures builders == old(builders) + [SetOptions(options)]
      ensures repos == old(repos) && validators == old(validators)
    {
      builders := builders + [SetOptions(options)];
    }

    /** `set_binary_only`: removes every `BinaryOnly` validator and, when
        asked, puts one in front. */
    method SetBinaryOnly(binaryOnly: bool)
      modifies this
      ensures validators == WithBinaryOnly(old(validators), binaryOnly)
      ensures repos == old(repos) && builders == old(builders)
    {
      var kept := Filter(validators, NotBinaryOnly);
      if binaryOnly {
        kept := [BinaryOnly] + kept;
      }
      validators := kept;
    }

    /** `get_initial_state`: the initial changes applied in order to the
        default state. */
    method GetInitialState(g: Graph<S, R>) returns (state: S)
      ensures state == ApplyAll(g.apply, builders, g.defaultState)
    {
      state := g.defaultState;
      var i := 0;
      while i < |builders|
        invariant 0 <= i <= |builders|
        invariant ApplyAll(g.apply, builders, g.defaultState) == ApplyAll(g.apply, builders[i..], state)
      {
        assert builders[i..][1..] == builders[i + 1..];
        state := g.apply(builders[i], state);
        i := i + 1;
      }
    }

    /** `_get_iterator`: the iterator stored on the node for the name, or a
        new one over the repositories, which is stored; with no
        repositories that is an error. */
    method GetIterator(node: Node<S, R>, name: string, g: Graph<S, R>) returns (r: Result<seq<Candidate<R>>, string>)
      modifies node
      ensures name in old(node.iterators) ==> r == Ok(old(node.iterators)[name]) && node.iterators == old(node.iterators)
      ensures name !in old(node.iterators) && repos == [] ==> r == Err(NO_REPOSITORIES) && node.iterators == old(node.iterators)
      ensures name !in old(node.iterators) && repos != [] ==>
        r == Ok(g.listCandidates(repos, name)) && node.iterators == old(node.iterators)[name := r.value]
    {
      if name in node.iterators {
        return Ok(node.iterators[name]);
      }
      if repos == [] {
        return Err(NO_REPOSITORIES);
      }
      var made := g.listCandidates(repos, name);
      node.iterators := node.iterators[name := made];
      r := Ok(made);
    }

    /** One candidate through the checks of `_step_state`. */
    method Consider(g: Graph<S, R>, state: S, request: PkgRequest, c: Candidate<R>) returns (v: Verdict<S, R>)
      ensures v == Judge(g, repos, validators, state, request, c)
    {
      var spec := c.spec;
      var fromSource := IsSourceIdent(spec.pkg) && !IsSourceIdent(request.pkg);
      if fromSource {
        if c.source.EmbeddedIn? {
          return Skip(SkipPackageNote(spec.pkg, CANNOT_BUILD_EMBEDDED));
        }
        var id := PyIdents.WithBuild(spec.pkg, None);
        if id.Err? {
          return Fail(id.error);
        }
        var read := g.readSpec(c.source.repo, id.value);
        if read.Err? {
          if read.error.SpecNotFound? {
            return Skip(SkipPackageNote(spec.pkg, NO_VERSION_SPEC));
          }
          return Fail(read.error.message);
        }
        spec := read.value;
      }
      var compat := ValidateAll(validators, state, spec, g.validate);
      if compat.Incompatible? {
        return Skip(SkipPackageNote(spec.pkg, compat.reason));
      }
      if fromSource {
        var env := g.resolveBuild(repos, spec, state);
        if env.Err? {
          if env.error.SolverFailure? {
            return Skip(SkipPackageNote(spec.pkg, BUILD_ENV_FAILED + env.error.message));
          }
          return Fail(env.error.message);
        }
        return Take(BuildPackage(spec, c.source, env.value));
      }
      return Take(ResolvePackage(spec, c.source));
    }

    /** The candidate loop of `_step_state` over the iterator stored on the
        node for the request's package: the scan's outcome, with what is
        left of the iterator stored back. */
    method ScanCandidates(node: Node<S, R>, g: Graph<S, R>, request: PkgRequest) returns (r: Result<Decision<S, R>, StepError>)
      requires request.pkg.name in node.iterators
      modifies node
      ensures var s := Scan(g, repos, validators, node.state, request, old(node.iterators[request.pkg.name]), []);
        r == s.0 && node.iterators == old(node.iterators)[request.pkg.name := s.1]
    {
      var name := request.pkg.name;
      var state := node.state;
      ghost var goal := Scan(g, repos, validators, state, request, node.iterators[name], []);
      ghost var stored := node.iterators;
      var notes: seq<Note> := [];
      while node.iterators[name] != []
        invariant name in node.iterators && node.iterators == stored[name := node.iterators[name]]
        invariant node.state == state
        invariant Scan(g, repos, validators, state, request, node.iterators[name], notes) == goal
        decreases |node.iterators[name]|
      {
        var remaining := node.iterators[name];
        var c := remaining[0];
        node.iterators := node.iterators[name := remaining[1..]];
        var v := Consider(g, state, request, c);
        ScanStep(g, repos, validators, state, request, remaining, notes);
        match v {
          case Skip(note) =>
            notes := notes + [note];
          case Take(kind) =>
            return Ok(Decision(kind, notes));
          case Fail(message) =>
            return Err(Failure(message));
        }
      }
      return Err(OutOfOptions(name, notes));
    }

    /** `_step_state`: no decision when the state has no next request;
        otherwise the candidates of the request's package, from the
        iterator stored on the node, are consumed until one is taken. */
    method StepState(node: Node<S, R>, g: Graph<S, R>) returns (r: Result<Option<Decision<S, R>>, StepError>)
      modifies node
      ensures r == Ok(None) <==> g.nextRequest(node.state).None?
      ensures g.nextRequest(node.state).None? ==> node.iterators == old(node.iterators)
      ensures g.nextRequest(node.state).Some? ==>
        StepMatches(g, repos, validators, node.state, g.nextRequest(node.state).value, old(node.iterators), node.iterators, r)
    {
      var next := g.nextRequest(node.state);
      if next.None? {
        return Ok(None);
      }
      var request := next.value;
      var it := GetIterator(node, request.pkg.name, g);
      if it.Err? {
        return Err(Failure(it.error));
      }
      var d := ScanCandidates(node, g, request);
      r := if d.Ok? then Ok(Some(d.value)) else Err(d.error);
    }

    /** `solve`: with no package requests the initial state is the answer.
        Otherwise decisions are added to the graph from the default state,
        stepping back on errors, until a step has no decision to make; the
        end state must be neither the default nor the dead state. The step
        count is bounded by `fuel`. */
    method Solve(g: Graph<S, R>, fuel: nat) returns (r: Result<S, SolveError>)
      ensures !g.hasPkgRequests(ApplyAll(g.apply, builders, g.defaultState)) ==>
        r == Ok(ApplyAll(g.apply, builders, g.defaultState))
      ensures r.Ok? && g.hasPkgRequests(ApplyAll(g.apply, builders, g.defaultState)) ==>
        r.value != g.defaultState && r.value != g.deadState && g.nextRequest(r.value).None?
    {
      var initial := GetInitialState(g);
      if !g.hasPkgRequests(initial) {
        return Ok(initial);
      }
      var root := new Node<S, R>(g.defaultState);
      var nodes: map<S, Node<S, R>> := map[g.defaultState := root];
      var history: seq<S> := [];
      var current := g.defaultState;
      var decision: Option<Decision<S, R>> := Some(Decision(Initial(builders), []));
      var steps := fuel;
      while decision.Some? && current != g.deadState
        invariant forall s | s in nodes :: fresh(nodes[s]) && nodes[s].state == s
        invariant decision.None? ==> g.nextRequest(current).None?
        decreases steps
      {
        if steps == 0 {
          return Err(OutOfFuel);
        }
        steps := steps - 1;
        var branched := g.addBranch(current, decision.value);
        if branched.Err? {
          var (h, d) := Recover(history, Failure(branched.error), g.deadState);
          history, decision := h, Some(d);
          continue;
        }
        current := branched.value;
        var node: Node<S, R>;
        if current in nodes {
          node := nodes[current];
        } else {
          node := new Node<S, R>(current);
          nodes := nodes[current := node];
        }
        var stepped := StepState(node, g);
        if stepped.Ok? {
          decision := stepped.value;
          history := history + [current];
        } else {
          var (h, d) := Recover(history, stepped.error, g.deadState);
          history, decision := h, Some(d);
        }
      }
      if current == g.defaultState || current == g.deadState {
        return Err(FailedToResolveAll);
      }
      return Ok(current);
    }
  }

  /** What a step leaves: with no repositories and no stored iterator, an
      error and nothing stored; otherwise the candidate scan over the stored
      (or new) iterator, whose remainder is stored back. */
  ghost predicate StepMatches<S, R>(g: Graph<S, R>, repos: seq<R>, validators: seq<Validator>, state: S, request: PkgRequest,
                                    before: map<string, seq<Candidate<R>>>, after: map<string, seq<Candidate<R>>>,
                                    r: Result<Option<Decision<S, R>>, StepError>) {
    var name := request.pkg.name;
    if name !in before && repos == [] then r == Err(Failure(NO_REPOSITORIES)) && after == before
    else
      var cands := if name in before then before[name] else g.listCandidates(repos, name);
      var s := Scan(g, repos, validators, state, request, cands, []);
      && after == before[name := s.1]
      && r == (if s.0.Ok? then Ok(Some(s.0.value)) else Err(s.0.error))
  }
}
