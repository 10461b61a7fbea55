/** Bytes and the UTF-8 encoding of strings: Rust's `str::as_bytes` and
    `std::str::from_utf8`, which accepts exactly the well-formed sequences
    (no overlong forms, no surrogates, nothing above U+10FFFF). */
module Utf8 {
  import opened Wrappers

  type byte = x: int | 0 <= x < 256

  predicate IsContinuation(b: byte) { 0x80 <= b < 0xC0 }

  /** The UTF-8 bytes of one character. */
  function EncodeChar(c: char): (r: seq<byte>)
    ensures 1 <= |r| <= 4
    ensures c == '\0' ==> r == [0]
    ensures c != '\0' ==> 0 !in r
  {
    var n := c as int;
    if n < 0x80 then [n]
    else if n < 0x800 then [0xC0 + n / 64, 0x80 + n % 64]
    else if n < 0x10000 then [0xE0 + n / 4096, 0x80 + (n / 64) % 64, 0x80 + n % 64]
    else [0xF0 + n / 0x40000, 0x80 + (n / 4096) % 64, 0x80 + (n / 64) % 64, 0x80 + n % 64]
  }

  /** The first character of a byte sequence and the number of bytes it
      takes, or `None` when the sequence does not start with a well-formed
      character. */
  function DecodeChar(bs: seq<byte>): (r: Option<(char, nat)>)
    requires |bs| >= 1
    ensures r.Some? ==> 1 <= r.value.1 <= |bs| && r.value.1 <= 4
  {
    var b0: int := bs[0];
    if b0 < 0x80 then Some((b0 as char, 1))
    else if 0xC2 <= b0 < 0xE0 then
      if |bs| >= 2 && IsContinuation(bs[1]) then
        Some((((b0 - 0xC0) * 64 + (bs[1] as int - 0x80)) as char, 2))
      else None
    else if 0xE0 <= b0 < 0xF0 then
      if |bs| >= 3 && IsContinuation(bs[1]) && IsContinuation(bs[2]) then
        var n := (b0 - 0xE0) * 4096 + (bs[1] as int - 0x80) * 64 + (bs[2] as int - 0x80);
        if 0x800 <= n && !(0xD800 <= n < 0xE000) then Some((n as char, 3)) else None
      else None
    else if 0xF0 <= b0 < 0xF5 then
      if |bs| >= 4 && IsContinuation(bs[1]) && IsContinuation(bs[2]) && IsContinuation(bs[3]) then
        var n := (b0 - 0xF0) * 0x40000 + (bs[1] as int - 0x80) * 4096 + (bs[2] as int - 0x80) * 64 + (bs[3] as int - 0x80);
        if 0x10000 <= n < 0x110000 then Some((n as char, 4)) else None
      else None
    else None
  }

  function Encode(s: string): (r: seq<byte>)
    ensures |r| >= |s|
  {
    if s == [] then [] else EncodeChar(s[0]) + Encode(s[1..])
  }

  /** `from_utf8`: the decoded string, or `None` for ill-formed input. */
  function Decode(bs: seq<byte>): (r: Option<string>)
    ensures bs == [] ==> r == Some([])
    decreases |bs|
  {
    if bs == [] then Some([])
    else match DecodeChar(bs)
      case None => None
      case Some((c, k)) =>
        match Decode(bs[k..])
        case None => None
        case Some(t) => Some([c] + t)
  }

  lemma DecodeEncodeChar(c: char, rest: seq<byte>)
    ensures DecodeChar(EncodeChar(c) + rest) == Some((c, |EncodeChar(c)|))
  {
    var n := c as int;
    var bs := EncodeChar(c) + rest;
    if n < 0x80 {
    } else if n < 0x800 {
      assert bs[0] == 0xC0 + n / 64 && bs[1] == 0x80 + n % 64;
      assert (n / 64) * 64 + n % 64 == n;
    } else if n < 0x10000 {
      assert bs[0] == 0xE0 + n / 4096 && bs[1] == 0x80 + (n / 64) % 64 && bs[2] == 0x80 + n % 64;
      Digits3(n);
    } else {
      assert bs[0] == 0xF0 + n / 0x40000 && bs[1] == 0x80 + (n / 4096) % 64;
      assert bs[2] == 0x80 + (n / 64) % 64 && bs[3] == 0x80 + n % 64;
      Digits4(n);
    }
  }

  lemma Digits3(n: nat)
    ensures (n / 4096) * 4096 + ((n / 64) % 64) * 64 + n % 64 == n
  {
    var q := n / 64;
    assert q * 64 + n % 64 == n;
    assert (q / 64) * 64 + q % 64 == q;
    assert q / 64 == n / 4096;
  }

  lemma Digits4(n: nat)
    ensures (n / 0x40000) * 0x40000 + ((n / 4096) % 64) * 4096 + ((n / 64) % 64) * 64 + n % 64 == n
  {
    var q := n / 64;
    Digits3(q);
    assert q * 64 + n % 64 == n;
    assert q / 4096 == n / 0x40000;
    assert q / 64 == n / 4096;
  }

  /** A character is read from its own bytes only. */
  lemma DecodeCharPrefix(a: seq<byte>, b: seq<byte>)
    requires |a| >= 1 && DecodeChar(a).Some?
    ensures DecodeChar(a + b) == DecodeChar(a)
  {
    var k := DecodeChar(a).value.1;
    assert forall i | 0 <= i < k :: (a + b)[i] == a[i];
  }

  /** One step of `Decode`: the first character, then the rest. */
  lemma DecodeStep(bs: seq<byte>, c: char, k: nat)
    requires |bs| >= 1 && DecodeChar(bs) == Some((c, k))
    ensures Decode(bs).Some? <==> Decode(bs[k..]).Some?
    ensures Decode(bs).Some? ==> Decode(bs).value == [c] + Decode(bs[k..]).value
  {
  }

  /** One step of `Decode` on a concatenation whose first part starts
      with a whole character. */
  lemma DecodeAppendStep(a: seq<byte>, b: seq<byte>, c: char, k: nat)
    requires |a| >= 1 && DecodeChar(a) == Some((c, k))
    ensures Decode(a + b).Some? <==> Decode(a[k..] + b).Some?
    ensures Decode(a + b).Some? ==> Decode(a + b).value == [c] + Decode(a[k..] + b).value
  {
    DecodeCharPrefix(a, b);
    DecodeStep(a + b, c, k);
    assert (a + b)[k..] == a[k..] + b;
  }

  /** Decoding the concatenation of two well-formed sequences gives the
      concatenation of their strings. */
  lemma {:induction false} DecodeConcat(a: seq<byte>, b: seq<byte>)
    requires Decode(a).Some? && Decode(b).Some?
    ensures Decode(a + b) == Some(Decode(a).value + Decode(b).value)
    decreases |a|
  {
    if a == [] {
      assert a + b == b;
      assert Decode(a).value + Decode(b).value == Decode(b).value;
    } else {
      var (c, k) := DecodeChar(a).value;
      DecodeStep(a, c, k);
      DecodeAppendStep(a, b, c, k);
      DecodeConcat(a[k..], b);
      var x, y := Decode(a[k..]).value, Decode(b).value;
      assert [c] + (x + y) == ([c] + x) + y;
    }
  }

  /** Every string reads back from its encoding. */
  lemma {:induction false} DecodeEncode(s: string)
    ensures Decode(Encode(s)) == Some(s)
  {
    if s != [] {
      var e := EncodeChar(s[0]);
      var bs := Encode(s);
      assert bs == e + Encode(s[1..]);
      DecodeEncodeChar(s[0], Encode(s[1..]));
      assert bs[|e|..] == Encode(s[1..]);
      DecodeEncode(s[1..]);
      assert Decode(bs) == Some([s[0]] + s[1..]);
      assert [s[0]] + s[1..] == s;
    }
  }

  /** The encoding of a string without NUL contains no zero byte. */
  lemma {:induction false} EncodeNulFree(s: string)
    requires '\0' !in s
    ensures 0 !in Encode(s)
  {
    if s != [] {
      EncodeNulFree(s[1..]);
    }
  }

  lemma {:induction false} EncodeConcat(a: string, b: string)
    ensures Encode(a + b) == Encode(a) + Encode(b)
  {
    if a != [] {
      assert (a + b)[0] == a[0];
      assert (a + b)[1..] == a[1..] + b;
      EncodeConcat(a[1..], b);
    } else {
      assert a + b == b;
    }
  }

  /** A two-byte character split between chunks: neither half is well-formed
      on its own, while the whole is U+00E9. */
  lemma SplitCharacter()
    ensures Decode([0xC3]) == None
    ensures Decode([0xA9, 0x00]) == None
    ensures Decode([0xC3, 0xA9]) == Some(['\U{E9}'])
  {
    var whole: seq<byte> := [0xC3, 0xA9];
    assert DecodeChar(whole) == Some(('\U{E9}', 2));
    assert whole[2..] == [];
    assert ['\U{E9}'] + [] == ['\U{E9}'];
  }
}
