/** A stand-in for the package version type, which lives outside the modelled
    files. The model needs only what the core uses: a zero test, a total order
    and a text form that parses back. A version here is `major.minor.patch`;
    missing trailing parts read as zero and the empty text is the zero
    version. */
module Versions {
  import opened Wrappers
  import opened Strs

  datatype Version = Version(major: nat, minor: nat, patch: nat)

  const Zero: Version := Version(0, 0, 0)

  /** The zero version (`Version::is_zero`, and falsy in Python). */
  predicate IsZero(v: Version) {
    v.major == 0 && v.minor == 0 && v.patch == 0
  }

  lemma IsZeroIff(v: Version)
    ensures IsZero(v) <==> v == Zero
  {
  }

  /** Version order: major, then minor, then patch. */
  predicate Less(a: Version, b: Version) {
    || a.major < b.major
    || (a.major == b.major && a.minor < b.minor)
    || (a.major == b.major && a.minor == b.minor && a.patch < b.patch)
  }

  lemma LessIsStrictTotal(a: Version, b: Version, c: Version)
    ensures !Less(a, a)
    ensures Less(a, b) && Less(b, c) ==> Less(a, c)
    ensures a != b ==> Less(a, b) || Less(b, a)
  {
  }

  function Text(v: Version): (r: string)
    ensures '.' in r
  {
    assert (NatToString(v.major) + ".")[|NatToString(v.major)|] == '.';
    NatToString(v.major) + "." + NatToString(v.minor) + "." + NatToString(v.patch)
  }

  function PartOrZero(parts: seq<string>, k: nat): Option<nat> {
    if k < |parts| then ParseNat(parts[k]) else Some(0)
  }

  /** `parse_version`: the empty text is the zero version; otherwise one to
      three dot-separated decimal parts. */
  function Parse(s: string): (r: Result<Version, string>)
    ensures s == "" ==> r == Ok(Zero)
  {
    if s == "" then Ok(Zero)
    else
      var parts := Split(s, '.');
      if |parts| > 3 then Err("too many version parts: " + s)
      else
        match (PartOrZero(parts, 0), PartOrZero(parts, 1), PartOrZero(parts, 2))
        case (Some(a), Some(b), Some(c)) => Ok(Version(a, b, c))
        case _ => Err("invalid version: " + s)
  }

  lemma TextSplit(v: Version)
    ensures Split(Text(v), '.') == [NatToString(v.major), NatToString(v.minor), NatToString(v.patch)]
  {
    var parts := [NatToString(v.major), NatToString(v.minor), NatToString(v.patch)];
    forall k | 0 <= k < 3 ensures '.' !in parts[k] {
      DigitsHaveNoDot(parts[k]);
    }
    assert Join(parts, '.') == Text(v) by {
      assert Join(parts[1..], '.') == parts[1] + "." + parts[2] by {
        assert parts[1..][1..] == [parts[2]];
      }
    }
    SplitJoin(parts, '.');
  }

  lemma DigitsHaveNoDot(s: string)
    requires forall k | 0 <= k < |s| :: IsDigit(s[k])
    ensures '.' !in s
  {
  }

  /** The text of a version parses back to that version. */
  lemma {:induction false} ParseText(v: Version)
    ensures Parse(Text(v)) == Ok(v)
  {
    TextSplit(v);
    ParseNatToString(v.major);
    ParseNatToString(v.minor);
    ParseNatToString(v.patch);
  }

  /** Text that is not a version: letters do not parse. */
  lemma ParseRejectsLetters(s: string)
    requires s != [] && forall k | 0 <= k < |s| :: 'a' <= s[k] <= 'z'
    ensures Parse(s).Err?
  {
    assert '.' !in s;
    assert Split(s, '.') == [s];
    assert !IsDigit(s[0]);
  }
}
