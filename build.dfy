/** The build component of a package identifier: a source build, an embedded
    package (with its source ident when known) or a fixed-length digest. */
module Builds {
  import opened Wrappers
  import opened Seqs

  const SRC: string := "src"
  const EMBEDDED: string := "embedded"

  /** Length of a build digest. The constant is declared outside the modelled
      files; spk's build digests are eight characters. */
  const DIGEST_SIZE: nat := 8

  type DigestChars = s: seq<char> | |s| == DIGEST_SIZE witness "AAAAAAAA"

  datatype EmbeddedSource = Ident(ident: string) | Unknown

  datatype Build = Source | Embedded(origin: EmbeddedSource) | Digest(chars: DigestChars)
  {
    predicate IsSource() { Source? }
    predicate IsEmbedded() { Embedded? }
  }

  /** `Display` of an embedded source: `embedded`, followed by the source
      ident in brackets when it is known. */
  function EmbeddedText(e: EmbeddedSource): (r: string)
    ensures EMBEDDED <= r
    ensures e.Unknown? <==> r == EMBEDDED
    ensures e.Ident? ==> r == EMBEDDED + "[" + e.ident + "]"
  {
    match e
    case Ident(s) => EMBEDDED + "[" + s + "]"
    case Unknown => EMBEDDED
  }

  /** The name or digest of a build as shown in a version. */
  function DigestText(b: Build): (r: string)
    ensures b.Digest? ==> |r| == DIGEST_SIZE && r == b.chars
  {
    match b
    case Source => SRC
    case Embedded(e) => EmbeddedText(e)
    case Digest(d) => d
  }

  /** `Display` and `Debug` both write exactly the digest text; this one
      function stands for both. */
  function Display(b: Build): (r: string)
    ensures r == DigestText(b)
  {
    DigestText(b)
  }

  lemma DigestTextCases(b: Build)
    ensures b.Source? <==> DigestText(b) == SRC
    ensures b == Embedded(Unknown) ==> DigestText(b) == EMBEDDED
    ensures b.Embedded? ==> EMBEDDED <= DigestText(b)
    ensures b.Embedded? && b.origin.Ident? ==> DigestText(b) == EMBEDDED + "[" + b.origin.ident + "]"
  {
    if b.Embedded? {
      assert |DigestText(b)| >= |EMBEDDED|;
    }
  }

  /** The predicates are exact and exclusive: a build is never both a source
      build and an embedded one. */
  lemma PredicatesExclusive(b: Build)
    ensures b.IsSource() <==> b == Source
    ensures b.IsEmbedded() <==> exists e :: b == Embedded(e)
    ensures !(b.IsSource() && b.IsEmbedded())
  {
    if b.Embedded? {
      assert b == Embedded(b.origin);
    }
  }

  /** A digest that spells `embedded` prints like an unknown embedded source:
      the character array alone does not keep the texts apart. */
  lemma DigestTextCollision()
    ensures DigestText(Digest(EMBEDDED)) == DigestText(Embedded(Unknown))
  {
  }

  predicate DistinctText(b: Build) {
    b.Digest? ==> b.chars != EMBEDDED
  }

  lemma TextShape(b: Build)
    ensures b.Source? ==> |DigestText(b)| == 3
    ensures b.Digest? ==> |DigestText(b)| == 8
    ensures b.Embedded? && b.origin.Ident? ==> |DigestText(b)| == |b.origin.ident| + 10
    ensures b.Embedded? && b.origin.Unknown? ==> |DigestText(b)| == 8
  {
  }

  lemma IdentTextInjective(x: string, y: string)
    requires EmbeddedText(Ident(x)) == EmbeddedText(Ident(y))
    ensures x == y
  {
    var t := EmbeddedText(Ident(x));
    assert t[9..|t| - 1] == x;
    assert EmbeddedText(Ident(y))[9..|t| - 1] == y;
  }

  /** Apart from that one spelling, different builds print differently. */
  lemma DigestTextInjective(a: Build, b: Build)
    requires DistinctText(a) && DistinctText(b)
    requires DigestText(a) == DigestText(b)
    ensures a == b
  {
    TextShape(a);
    TextShape(b);
    if a.Embedded? && a.origin.Ident? && b.Embedded? && b.origin.Ident? {
      IdentTextInjective(a.origin.ident, b.origin.ident);
    }
  }

  // ----- parsing -----

  /** A stand-in for `Build::from_str`, whose grammar lives outside the
      modelled files: the three printed forms, read back. */
  function ParseBuild(s: string): (r: Result<Build, string>)
  {
    if s == SRC then Ok(Source)
    else if s == EMBEDDED then Ok(Embedded(Unknown))
    else if |s| >= 10 && s[..9] == EMBEDDED + "[" && s[|s| - 1] == ']' then
      Ok(Embedded(Ident(s[9..|s| - 1])))
    else if |s| == DIGEST_SIZE then Ok(Digest(s))
    else Err("Invalid build: " + s)
  }

  /** Every build whose text is unambiguous parses back from its text. */
  lemma ParseDigestText(b: Build)
    requires DistinctText(b)
    ensures ParseBuild(DigestText(b)) == Ok(b)
  {
    TextShape(b);
    if b.Embedded? && b.origin.Ident? {
      var t := DigestText(b);
      assert t[..9] == EMBEDDED + "[";
      assert t[9..|t| - 1] == b.origin.ident;
    }
  }

  // ----- the derived order -----

  function CharLess(a: char, b: char): bool { a < b }

  lemma CharLessStrictTotal()
    ensures StrictTotalOrder(CharLess)
  {
  }

  function Rank(b: Build): nat {
    match b
    case Source => 0
    case Embedded(_) => 1
    case Digest(_) => 2
  }

  /** The derived `Ord` of `EmbeddedSource`: `Ident(_) < Unknown`, idents by
      their text. */
  predicate EmbeddedLess(a: EmbeddedSource, b: EmbeddedSource) {
    match (a, b)
    case (Ident(x), Ident(y)) => LexLess(x, y, CharLess)
    case (Ident(_), Unknown) => true
    case _ => false
  }

  /** The derived `Ord` of `Build`: `Source < Embedded(_) < Digest(_)`; within
      a variant, by its contents. */
  predicate BuildLess(a: Build, b: Build) {
    if Rank(a) != Rank(b) then Rank(a) < Rank(b)
    else match (a, b)
      case (Embedded(x), Embedded(y)) => EmbeddedLess(x, y)
      case (Digest(x), Digest(y)) => LexLess(x, y, CharLess)
      case _ => false
  }

  lemma BuildOrderShape(e: EmbeddedSource, d: DigestChars, s: string)
    ensures BuildLess(Source, Embedded(e)) && BuildLess(Embedded(e), Digest(d))
    ensures BuildLess(Source, Digest(d))
    ensures EmbeddedLess(Ident(s), Unknown) && !EmbeddedLess(Unknown, Ident(s))
  {
  }

  lemma {:induction false} BuildLessStrictTotal(a: Build, b: Build, c: Build)
    ensures !BuildLess(a, a)
    ensures BuildLess(a, b) && BuildLess(b, c) ==> BuildLess(a, c)
    ensures a != b ==> BuildLess(a, b) || BuildLess(b, a)
  {
    CharLessStrictTotal();
    LexStrictTotal(CharLess);
    var lex := (x: seq<char>, y: seq<char>) => LexLess(x, y, CharLess);
    assert forall x: seq<char>, y: seq<char> :: lex(x, y) == LexLess(x, y, CharLess);
  }
}
