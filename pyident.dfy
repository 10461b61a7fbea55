/** The legacy Python package identifier: a mutable object with a name, a
    version and an optional build, parsed in place from `name/version/build`
    and printed back. */
module PyIdents {
  import opened Wrappers
  import opened Strs
  import opened Versions
  import Idents

  /** A stand-in for the Python build type, defined outside the modelled
      files: a build is known by its digest text, and parsing accepts a
      non-empty run of letters and digits. */
  datatype PyBuild = PyBuild(digest: string)

  predicate IsAlnum(c: char) { ('a' <= c <= 'z') || ('A' <= c <= 'Z') || ('0' <= c <= '9') }

  predicate ValidBuildText(s: string) {
    |s| >= 1 && forall k | 0 <= k < |s| :: IsAlnum(s[k])
  }

  function ParseBuild(s: string): (r: Result<PyBuild, string>)
    ensures r.Ok? <==> ValidBuildText(s)
    ensures r.Ok? ==> r.value.digest == s
  {
    if ValidBuildText(s) then Ok(PyBuild(s)) else Err("invalid build: " + s)
  }

  function ValidateName(s: string): (r: Result<string, string>)
    ensures r.Ok? <==> Idents.ValidName(s)
    ensures r.Ok? ==> r.value == s
  {
    if Idents.ValidName(s) then Ok(s) else Err("invalid package name: " + s)
  }

  /** The value an identifier object holds. */
  datatype Fields = Fields(name: string, version: Version, build: Option<PyBuild>)

  /** The three tokens `parse` reads and whether the rest is empty. */
  function Tokens(source: string): (r: seq<string>)
    ensures |r| >= 3
  {
    Split(source, '/') + ["", ""]
  }

  predicate TooManyTokens(source: string) {
    exists k | 3 <= k < |Tokens(source)| :: Tokens(source)[k] != ""
  }

  /** What a successful `parse` assigns from the three tokens, or the error
      it raises. */
  function ParseParts(name: string, version: string, build: string): (r: Result<Fields, string>)
  {
    var n :- ValidateName(name);
    var v :- Parse(version);
    var b :- if build != "" then (match ParseBuild(build) case Ok(b) => Ok(Some(b)) case Err(e) => Err(e))
             else Ok(None);
    Ok(Fields(n, v, b))
  }

  function ParseFields(source: string): (r: Result<Fields, string>)
    ensures TooManyTokens(source) ==> r == Err("Too many tokens in identifier: " + source)
    ensures !TooManyTokens(source) ==> r == ParseParts(Tokens(source)[0], Tokens(source)[1], Tokens(source)[2])
  {
    var t := Tokens(source);
    if TooManyTokens(source) then Err("Too many tokens in identifier: " + source)
    else ParseParts(t[0], t[1], t[2])
  }

  lemma ParseOne(a: string)
    requires '/' !in a
    ensures ParseFields(a) == ParseParts(a, "", "")
  {
    assert Split(a, '/') == [a];
    assert Tokens(a) == [a, "", ""];
  }

  lemma ParseTwo(a: string, b: string)
    requires '/' !in a && '/' !in b
    ensures ParseFields(a + "/" + b) == ParseParts(a, b, "")
  {
    TokensOfTwo(a, b);
  }

  lemma ParseThree(a: string, b: string, c: string)
    requires '/' !in a && '/' !in b && '/' !in c
    ensures ParseFields(a + "/" + b + "/" + c) == ParseParts(a, b, c)
  {
    TokensOfThree(a, b, c);
  }

  lemma TokensOfFour(a: string, b: string, c: string, d: string)
    requires '/' !in a && '/' !in b && '/' !in c && '/' !in d
    ensures Tokens(a + "/" + b + "/" + c + "/" + d) == [a, b, c, d, "", ""]
  {
    var four := [a, b, c, d];
    assert Join(four, '/') == a + "/" + b + "/" + c + "/" + d by {
      assert four[1..] == [b, c, d];
      JoinSmall(b, c, d, '/');
    }
    SplitJoin(four, '/');
  }

  /** A fourth `/`-separated token is an error exactly when it is not empty,
      so one trailing `/` is accepted. */
  lemma FourthToken(a: string, b: string, c: string, d: string)
    requires '/' !in a && '/' !in b && '/' !in c && '/' !in d
    ensures TooManyTokens(a + "/" + b + "/" + c + "/" + d) <==> d != ""
    ensures d == "" ==> ParseFields(a + "/" + b + "/" + c + "/" + d) == ParseParts(a, b, c)
  {
    TokensOfFour(a, b, c, d);
    var t := Tokens(a + "/" + b + "/" + c + "/" + d);
    if d != "" {
      assert t[3] != "";
    }
  }

  lemma ParseThreeOk(n: string, vt: string, v: Version, b: string)
    requires Idents.ValidName(n) && Parse(vt) == Ok(v) && ValidBuildText(b)
    requires '/' !in vt
    ensures ParseFields(n + "/" + vt + "/" + b) == Ok(Fields(n, v, Some(PyBuild(b))))
  {
    NameSlashFree(n);
    BuildSlashFree(b);
    ParseThree(n, vt, b);
  }

  lemma ParseTwoOk(n: string, vt: string, v: Version)
    requires Idents.ValidName(n) && Parse(vt) == Ok(v)
    requires '/' !in vt
    ensures ParseFields(n + "/" + vt) == Ok(Fields(n, v, None))
  {
    NameSlashFree(n);
    ParseTwo(n, vt);
  }

  /** The first case the module's tests expect: a name, a version and a
      build. */
  lemma ParseExampleWithBuild()
    ensures ParseFields("hello/1.0.0/r2") == Ok(Fields("hello", Version(1, 0, 0), Some(PyBuild("r2"))))
  {
    VersionOneText();
    HelloPieces();
    ParseThreeOk("hello", "1.0.0", Version(1, 0, 0), "r2");
  }

  lemma VersionOneText()
    ensures Parse("1.0.0") == Ok(Version(1, 0, 0)) && '/' !in "1.0.0"
  {
    var v := Version(1, 0, 0);
    assert Text(v) == "1.0.0";
    ParseText(v);
    Idents.TextSlashFree(v);
  }

  lemma HelloPieces()
    ensures "hello/1.0.0/r2" == "hello" + "/" + "1.0.0" + "/" + "r2"
    ensures Idents.ValidName("hello") && ValidBuildText("r2")
  {
  }

  /** The second case: a two-part version and no build. */
  lemma ParseExampleWithoutBuild()
    ensures ParseFields("python/2.7") == Ok(Fields("python", Version(2, 7, 0), None))
  {
    VersionTwoSevenText();
    PythonPieces();
    ParseTwoOk("python", "2.7", Version(2, 7, 0));
  }

  lemma VersionTwoSevenText()
    ensures Parse("2.7") == Ok(Version(2, 7, 0)) && '/' !in "2.7"
  {
    SplitJoin(["2", "7"], '.');
    JoinSmall("2", "7", "", '.');
  }

  lemma PythonPieces()
    ensures "python/2.7" == "python" + "/" + "2.7"
    ensures Idents.ValidName("python")
  {
  }

  /** The Python object. `parse` assigns its fields one after another, so a
      failure part-way leaves the fields assigned before it changed. */
  class Ident {
    var name: string
    var version: Version
    var build: Option<PyBuild>

    function Value(): Fields
      reads this
    {
      Fields(name, version, build)
    }

    /** `Ident(name)` with the default version and no build. */
    constructor (name: string)
      ensures Value() == Fields(name, Zero, None)
    {
      this.name := name;
      version := Zero;
      build := None;
    }

    method Parse(source: string) returns (err: Option<string>)
      modifies this
      ensures err.None? <==> ParseFields(source).Ok?
      ensures err.None? ==> Value() == ParseFields(source).value
      ensures err.Some? ==> ParseFields(source) == Err(err.value)
      ensures TooManyTokens(source) ==> Value() == old(Value())
      ensures !TooManyTokens(source) && ValidateName(Tokens(source)[0]).Err? ==> Value() == old(Value())
      ensures !TooManyTokens(source) && ValidateName(Tokens(source)[0]).Ok? && Versions.Parse(Tokens(source)[1]).Err? ==>
        Value() == old(Value()).(name := Tokens(source)[0])
      ensures (!TooManyTokens(source) && ValidateName(Tokens(source)[0]).Ok? && Versions.Parse(Tokens(source)[1]).Ok?
               && Tokens(source)[2] != "" && ParseBuild(Tokens(source)[2]).Err?) ==>
        Value() == old(Value()).(name := Tokens(source)[0], version := Versions.Parse(Tokens(source)[1]).value)
    {
      var t := Tokens(source);
      if TooManyTokens(source) {
        return Some("Too many tokens in identifier: " + source);
      }
      var n := ValidateName(t[0]);
      if n.Err? {
        return Some(n.error);
      }
      name := n.value;
      var v := Versions.Parse(t[1]);
      if v.Err? {
        return Some(v.error);
      }
      version := v.value;
      if t[2] != "" {
        var b := ParseBuild(t[2]);
        if b.Err? {
          return Some(b.error);
        }
        build := Some(b.value);
      } else {
        build := None;
      }
      return None;
    }

    /** `__str__`, built up piece by piece. */
    method ToString() returns (out: string)
      ensures out == Str(Value())
    {
      out := name;
      if !IsZero(version) {
        out := out + "/" + Text(version);
      }
      if build.Some? {
        out := out + "/" + build.value.digest;
      }
    }
  }

  /** `parse_ident`: a fresh object parsed from `source`; an error leaves no
      object behind. */
  method ParseIdent(source: string) returns (r: Result<Ident, string>)
    ensures r.Ok? <==> ParseFields(source).Ok?
    ensures r.Ok? ==> fresh(r.value) && r.value.Value() == ParseFields(source).value
    ensures r.Err? ==> ParseFields(source) == Err(r.error)
  {
    var ident := new Ident("");
    var err := ident.Parse(source);
    if err.Some? {
      return Err(err.value);
    }
    return Ok(ident);
  }

  /** The text `__str__` gives: the version only when it is not zero, the build
      whenever there is one. */
  function Str(f: Fields): string {
    f.name + (if IsZero(f.version) then "" else "/" + Text(f.version))
      + (if f.build.Some? then "/" + f.build.value.digest else "")
  }

  /** `clone`: parse the printed text again. */
  function Clone(f: Fields): Result<Fields, string> {
    ParseFields(Str(f))
  }

  /** `with_build`: the printed name and version (the version always shown)
      followed by the new build when it is given and not empty. */
  function WithBuild(f: Fields, build: Option<string>): Result<Fields, string> {
    if build.None? || build.value == "" then ParseFields(f.name + "/" + Text(f.version))
    else ParseFields(f.name + "/" + Text(f.version) + "/" + build.value)
  }

  predicate ValidFields(f: Fields) {
    Idents.ValidName(f.name) && (f.build.Some? ==> ValidBuildText(f.build.value.digest))
  }

  lemma NameSlashFree(s: string)
    requires Idents.ValidName(s)
    ensures '/' !in s
  {
    assert forall k | 0 <= k < |s| :: s[k] != '/';
  }

  lemma BuildSlashFree(s: string)
    requires ValidBuildText(s)
    ensures '/' !in s
  {
    assert forall k | 0 <= k < |s| :: s[k] != '/';
  }

  lemma TokensOfTwo(a: string, b: string)
    requires '/' !in a && '/' !in b
    ensures Tokens(a + "/" + b) == [a, b, "", ""]
  {
    JoinSmall(a, b, "", '/');
    SplitJoin([a, b], '/');
  }

  lemma TokensOfThree(a: string, b: string, c: string)
    requires '/' !in a && '/' !in b && '/' !in c
    ensures Tokens(a + "/" + b + "/" + c) == [a, b, c, "", ""]
  {
    JoinSmall(a, b, c, '/');
    SplitJoin([a, b, c], '/');
  }

  /** `with_build` keeps the name and version and sets the build: the name
      and version are printed in full, so they parse back. */
  lemma {:induction false} WithBuildSetsBuild(f: Fields, build: Option<string>)
    requires ValidFields(f)
    requires build.Some? && build.value != "" ==> ValidBuildText(build.value)
    ensures build.None? || build.value == "" ==> WithBuild(f, build) == Ok(f.(build := None))
    ensures build.Some? && build.value != "" ==> WithBuild(f, build) == Ok(f.(build := Some(PyBuild(build.value))))
  {
    NameSlashFree(f.name);
    Idents.TextSlashFree(f.version);
    ParseText(f.version);
    if build.None? || build.value == "" {
      ParseTwo(f.name, Text(f.version));
    } else {
      BuildSlashFree(build.value);
      ParseThree(f.name, Text(f.version), build.value);
    }
  }

  lemma StrZeroVersion(n: string, b: string)
    ensures Str(Fields(n, Zero, Some(PyBuild(b)))) == n + "/" + b
  {
  }

  lemma LettersSlashFree(s: string)
    requires forall k | 0 <= k < |s| :: 'a' <= s[k] <= 'z'
    ensures '/' !in s
  {
    assert forall k | 0 <= k < |s| :: s[k] != '/';
  }

  /** As written, `clone` fails on an ident with a zero version and a build
      such as `src`: the text `pkg/src` omits the version, so the build token
      is read as the version. */
  lemma CloneZeroVersionWithBuild(n: string, b: string)
    requires Idents.ValidName(n)
    requires b != [] && forall k | 0 <= k < |b| :: 'a' <= b[k] <= 'z'
    ensures Str(Fields(n, Zero, Some(PyBuild(b)))) == n + "/" + b
    ensures Clone(Fields(n, Zero, Some(PyBuild(b)))).Err?
  {
    StrZeroVersion(n, b);
    NameSlashFree(n);
    LettersSlashFree(b);
    ParseTwo(n, b);
    ParseRejectsLetters(b);
  }

  /** The evident intent, as the Rust ident prints it: the version is shown
      whenever a build follows it. */
  function StrCorrected(f: Fields): string {
    f.name + (if IsZero(f.version) && f.build.None? then "" else "/" + Text(f.version))
      + (if f.build.Some? then "/" + f.build.value.digest else "")
  }

  function CloneCorrected(f: Fields): Result<Fields, string> {
    ParseFields(StrCorrected(f))
  }

  /** With the corrected text every valid ident clones to itself. */
  lemma {:induction false} CloneCorrectedIsIdentity(f: Fields)
    requires ValidFields(f)
    ensures CloneCorrected(f) == Ok(f)
  {
    NameSlashFree(f.name);
    Idents.TextSlashFree(f.version);
    ParseText(f.version);
    var t := StrCorrected(f);
    if f.build.Some? {
      BuildSlashFree(f.build.value.digest);
      assert t == f.name + "/" + Text(f.version) + "/" + f.build.value.digest;
      ParseThree(f.name, Text(f.version), f.build.value.digest);
    } else if IsZero(f.version) {
      assert t == f.name;
      ParseOne(f.name);
      IsZeroIff(f.version);
    } else {
      assert t == f.name + "/" + Text(f.version);
      ParseTwo(f.name, Text(f.version));
    }
  }

  /** The corrected text differs from the original only where the original
      loses the version. */
  lemma StrCorrectedAgrees(f: Fields)
    ensures !(IsZero(f.version) && f.build.Some?) ==> StrCorrected(f) == Str(f)
  {
  }
}
