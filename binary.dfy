/** The spfs binary encoding: newline-terminated headers, big-endian
    eight-byte integers, fixed-size digests and NUL-terminated UTF-8 strings.
    A writer is modelled by the bytes it appends; a reader of a fixed size by
    a function from the input to the value and the input left over; the
    buffered reader that `read_string` works on by a class holding the chunks
    its `fill_buf` will hand out. */
module Binary {
  import opened Wrappers
  import opened Seqs
  import opened Utf8

  type Bytes = seq<byte>

  datatype Error =
    | UnexpectedEof
    | InvalidUtf8
    | InvalidHeader(expected: Bytes, got: Bytes)
    | Message(text: string)

  const INT_SIZE: nat := 8
  const NEWLINE: byte := 10

  /** `read_exact`: exactly `n` bytes, or `UnexpectedEof` on short input. */
  function ReadExact(input: Bytes, n: nat): (r: Result<(Bytes, Bytes), Error>)
    ensures r.Ok? <==> |input| >= n
    ensures r.Ok? ==> |r.value.0| == n && r.value.0 + r.value.1 == input
    ensures r.Err? ==> r.error == UnexpectedEof
  {
    if |input| < n then Err(UnexpectedEof)
    else
      assert input[..n] + input[n..] == input;
      Ok((input[..n], input[n..]))
  }

  // ----- headers -----

  function WriteHeader(header: Bytes): (r: Bytes)
    ensures |r| == |header| + 1 && r[..|header|] == header && r[|header|] == NEWLINE
  {
    header + [NEWLINE]
  }

  /** `consume_header`: reads `header.len() + 1` bytes and accepts them
      exactly when they are the header followed by a newline. */
  function ConsumeHeader(input: Bytes, header: Bytes): (r: Result<Bytes, Error>)
    ensures r.Ok? <==> |input| > |header| && input[..|header|] == header && input[|header|] == NEWLINE
    ensures r.Ok? ==> r.value == input[|header| + 1..]
    ensures |input| <= |header| ==> r == Err(UnexpectedEof)
    ensures |input| > |header| && r.Err? ==> r == Err(InvalidHeader(header, input[..|header| + 1]))
  {
    var (buf, rest) :- ReadExact(input, |header| + 1);
    assert buf == input[..|header| + 1];
    if buf[..|header|] != header || buf[|header|] != NEWLINE then Err(InvalidHeader(header, buf))
    else Ok(rest)
  }

  lemma ConsumeWrittenHeader(header: Bytes, rest: Bytes)
    ensures ConsumeHeader(WriteHeader(header) + rest, header) == Ok(rest)
  {
    var input := WriteHeader(header) + rest;
    assert input[..|header|] == header;
    assert input[|header| + 1..] == rest;
  }

  // ----- integers -----

  function Pow256(k: nat): (r: nat)
    ensures r >= 1
  {
    if k == 0 then 1 else 256 * Pow256(k - 1)
  }

  lemma Pow256Of8()
    ensures Pow256(8) == 0x1_0000_0000_0000_0000
  {
  }

  type u64 = x: int | 0 <= x < 0x1_0000_0000_0000_0000
  type i64 = x: int | -0x8000_0000_0000_0000 <= x < 0x8000_0000_0000_0000

  /** `n` as `width` bytes, most significant first. */
  function ToBigEndian(n: nat, width: nat): (r: Bytes)
    requires n < Pow256(width)
    ensures |r| == width
  {
    if width == 0 then [] else ToBigEndian(n / 256, width - 1) + [n % 256]
  }

  /** The value of bytes read most significant first. */
  function FromBigEndian(bs: Bytes): (r: nat)
    ensures r < Pow256(|bs|)
  {
    if bs == [] then 0 else FromBigEndian(bs[..|bs| - 1]) * 256 + bs[|bs| - 1]
  }

  lemma {:induction false} FromToBigEndian(n: nat, width: nat)
    requires n < Pow256(width)
    ensures FromBigEndian(ToBigEndian(n, width)) == n
  {
    if width > 0 {
      var bs := ToBigEndian(n, width);
      assert bs[..width - 1] == ToBigEndian(n / 256, width - 1);
      FromToBigEndian(n / 256, width - 1);
    }
  }

  /** Different byte strings of one width have different values. */
  lemma {:induction false} ToFromBigEndian(bs: Bytes)
    ensures ToBigEndian(FromBigEndian(bs), |bs|) == bs
  {
    if bs != [] {
      var pre := bs[..|bs| - 1];
      ToFromBigEndian(pre);
      assert bs == pre + [bs[|bs| - 1]];
    }
  }

  /** `write_uint`: the eight big-endian bytes of `v`. */
  function WriteUint(v: u64): (r: Bytes)
    ensures |r| == INT_SIZE
  {
    Pow256Of8();
    ToBigEndian(v, INT_SIZE)
  }

  /** `read_uint`. */
  function ReadUint(input: Bytes): (r: Result<(u64, Bytes), Error>)
    ensures r.Ok? <==> |input| >= INT_SIZE
    ensures r.Ok? ==> r.value.1 == input[INT_SIZE..] && r.value.0 == FromBigEndian(input[..INT_SIZE])
  {
    var (buf, rest) :- ReadExact(input, INT_SIZE);
    assert buf == input[..INT_SIZE];
    Pow256Of8();
    Ok((FromBigEndian(buf), rest))
  }

  lemma ReadWrittenUint(v: u64, rest: Bytes)
    ensures ReadUint(WriteUint(v) + rest) == Ok((v, rest))
  {
    var input := WriteUint(v) + rest;
    assert input[..INT_SIZE] == WriteUint(v);
    assert input[INT_SIZE..] == rest;
    Pow256Of8();
    FromToBigEndian(v, INT_SIZE);
  }

  /** Two's complement: the unsigned value with the same eight bytes. */
  function AsUnsigned(v: i64): (u: u64)
    ensures v >= 0 ==> u == v
    ensures v < 0 ==> u == v + 0x1_0000_0000_0000_0000
  {
    if v < 0 then v + 0x1_0000_0000_0000_0000 else v
  }

  function AsSigned(u: u64): (v: i64)
    ensures u < 0x8000_0000_0000_0000 ==> v == u
    ensures u >= 0x8000_0000_0000_0000 ==> v == u - 0x1_0000_0000_0000_0000
  {
    if u >= 0x8000_0000_0000_0000 then u - 0x1_0000_0000_0000_0000 else u
  }

  lemma SignedRoundTrip(v: i64, u: u64)
    ensures AsSigned(AsUnsigned(v)) == v
    ensures AsUnsigned(AsSigned(u)) == u
  {
  }

  /** `write_int`: the eight big-endian two's complement bytes of `v`. */
  function WriteInt(v: i64): (r: Bytes)
    ensures r == WriteUint(AsUnsigned(v))
  {
    WriteUint(AsUnsigned(v))
  }

  /** `read_int`. */
  function ReadInt(input: Bytes): (r: Result<(i64, Bytes), Error>)
    ensures r.Ok? <==> |input| >= INT_SIZE
    ensures r.Ok? ==> ReadUint(input).Ok? && r.value == (AsSigned(ReadUint(input).value.0), ReadUint(input).value.1)
  {
    var (u, rest) :- ReadUint(input);
    Ok((AsSigned(u), rest))
  }

  lemma ReadWrittenInt(v: i64, rest: Bytes)
    ensures ReadInt(WriteInt(v) + rest) == Ok((v, rest))
  {
    ReadWrittenUint(AsUnsigned(v), rest);
    SignedRoundTrip(v, 0);
  }

  /** Most significant byte first: a small value sits in the last byte. */
  lemma UintOneBytes()
    ensures WriteUint(1) == [0, 0, 0, 0, 0, 0, 0, 1]
  {
    SmallBigEndian(1, 7);
  }

  /** Most significant byte first: the high byte comes before the low one. */
  lemma UintTwoBytes()
    ensures WriteUint(0x0102) == [0, 0, 0, 0, 0, 0, 1, 2]
  {
    SmallBigEndian(1, 6);
    BigEndianLast(0x0102, 7);
  }

  /** Two's complement: -1 is eight 0xFF bytes. */
  lemma IntMinusOneBytes()
    ensures WriteInt(-1) == [255, 255, 255, 255, 255, 255, 255, 255]
  {
    AllOnesBigEndian(8);
  }

  lemma BigEndianLast(n: nat, k: nat)
    requires n < Pow256(k + 1)
    ensures ToBigEndian(n, k + 1) == ToBigEndian(n / 256, k) + [n % 256]
  {
  }

  /** Eight zero bytes, or fewer. */
  function Zeros(k: nat): (r: Bytes)
    ensures |r| == k
  {
    if k == 0 then [] else Zeros(k - 1) + [0]
  }

  /** A single byte value is its byte after `width - 1` zeros. */
  lemma {:induction false} SmallBigEndian(n: nat, k: nat)
    requires n < 256
    ensures n < Pow256(k + 1) && ToBigEndian(n, k + 1) == Zeros(k) + [n]
  {
    if k > 0 {
      SmallBigEndian(0, k - 1);
      assert Pow256(k + 1) == 256 * Pow256(k);
    }
  }

  /** The largest value of `k` bytes is `k` bytes 0xFF. */
  lemma {:induction false} AllOnesBigEndian(k: nat)
    ensures Pow256(k) - 1 < Pow256(k) && ToBigEndian(Pow256(k) - 1, k) == seq(k, _ => 255)
  {
    if k > 0 {
      AllOnesBigEndian(k - 1);
      var n := Pow256(k) - 1;
      assert n / 256 == Pow256(k - 1) - 1 && n % 256 == 255;
      assert seq(k, _ => 255) == seq(k - 1, _ => 255) + [255];
    }
  }

  // ----- digests -----

  /** Size of an spfs digest: a SHA-256 hash. The digest type is declared
      outside the modelled files. */
  const DIGEST_SIZE: nat := 32

  datatype Digest = Digest(bytes: Bytes)

  /** A stand-in for `Digest::from_bytes`: accepts exactly `DIGEST_SIZE`
      bytes. */
  function DigestFromBytes(bs: Bytes): (r: Result<Digest, Error>)
    ensures r.Ok? <==> |bs| == DIGEST_SIZE
    ensures r.Ok? ==> r.value.bytes == bs
  {
    if |bs| == DIGEST_SIZE then Ok(Digest(bs)) else Err(Message("invalid digest size"))
  }

  function WriteDigest(d: Digest): (r: Bytes)
    ensures r == d.bytes
  {
    d.bytes
  }

  /** `read_digest`: exactly `DIGEST_SIZE` bytes, no more and no fewer. */
  function ReadDigest(input: Bytes): (r: Result<(Digest, Bytes), Error>)
    ensures r.Ok? <==> |input| >= DIGEST_SIZE
    ensures r.Ok? ==> r.value == (Digest(input[..DIGEST_SIZE]), input[DIGEST_SIZE..])
    ensures r.Err? ==> r.error == UnexpectedEof
  {
    var (buf, rest) :- ReadExact(input, DIGEST_SIZE);
    assert buf == input[..DIGEST_SIZE];
    match DigestFromBytes(buf)
    case Ok(d) => Ok((d, rest))
    case Err(e) => Err(e)
  }

  lemma ReadWrittenDigest(d: Digest, rest: Bytes)
    requires |d.bytes| == DIGEST_SIZE
    ensures ReadDigest(WriteDigest(d) + rest) == Ok((d, rest))
  {
    var input := WriteDigest(d) + rest;
    assert input[..DIGEST_SIZE] == d.bytes;
    assert input[DIGEST_SIZE..] == rest;
  }

  // ----- strings -----

  const NUL_ERROR: string := "Cannot encode string with null character"

  /** `write_string`: refuses a string with a NUL, otherwise writes its UTF-8
      bytes and one zero byte. */
  function WriteString(s: string): (r: Result<Bytes, Error>)
    ensures r.Err? <==> '\0' in s
    ensures r.Err? ==> r.error == Message(NUL_ERROR)
    ensures r.Ok? ==> r.value == Encode(s) + [0] && 0 !in Encode(s)
  {
    if '\0' in s then Err(Message(NUL_ERROR))
    else
      EncodeNulFree(s);
      Ok(Encode(s) + [0])
  }

  /** The index of the first zero byte. */
  function FirstNul(bs: Bytes): (i: nat)
    requires 0 in bs
    ensures i < |bs| && bs[i] == 0 && 0 !in bs[..i]
  {
    if bs[0] == 0 then 0
    else
      assert bs == [bs[0]] + bs[1..];
      1 + FirstNul(bs[1..])
  }

  lemma {:induction false} FirstNulConcat(a: Bytes, b: Bytes)
    requires 0 !in a && 0 in b
    ensures 0 in a + b && FirstNul(a + b) == |a| + FirstNul(b)
  {
    if a == [] {
      assert a + b == b;
    } else {
      assert (a + b)[0] == a[0] && (a + b)[1..] == a[1..] + b;
      FirstNulConcat(a[1..], b);
    }
  }

  lemma {:induction false} FirstNulPrefix(a: Bytes, b: Bytes)
    requires 0 in a
    ensures 0 in a + b && FirstNul(a + b) == FirstNul(a)
  {
    assert (a + b)[FirstNul(a)] == 0;
    if a[0] != 0 {
      assert (a + b)[0] == a[0] && (a + b)[1..] == a[1..] + b;
      FirstNulPrefix(a[1..], b);
    }
  }

  /** What follows the first zero byte when the bytes before `b` hold none. */
  lemma AfterFirstNul(a: Bytes, b: Bytes)
    requires 0 !in a && 0 in b
    ensures 0 in a + b && (a + b)[FirstNul(a + b) + 1..] == b[FirstNul(b) + 1..]
  {
    FirstNulConcat(a, b);
    var k := FirstNul(b) + 1;
    assert (a + b)[|a| + k..] == b[k..];
  }

  /** What reading a string from `input` gives when the bytes are collected
      first and decoded once: the text before the first zero byte and the
      input after it, `UnexpectedEof` without a zero byte, `InvalidUtf8` when
      the text is not well-formed. */
  function ReadStringFrom(input: Bytes): (r: Result<(string, Bytes), Error>)
    ensures 0 !in input ==> r == Err(UnexpectedEof)
    ensures 0 in input ==> (r.Ok? <==> Decode(input[..FirstNul(input)]).Some?)
    ensures r.Ok? ==> 0 in input && r.value == (Decode(input[..FirstNul(input)]).value, input[FirstNul(input) + 1..])
  {
    if 0 !in input then Err(UnexpectedEof)
    else
      var i := FirstNul(input);
      match Decode(input[..i])
      case None => Err(InvalidUtf8)
      case Some(s) => Ok((s, input[i + 1..]))
  }

  /** A written string reads back and leaves the bytes after it unread. */
  lemma ReadWrittenString(s: string, rest: Bytes)
    requires '\0' !in s
    ensures WriteString(s).Ok?
    ensures ReadStringFrom(WriteString(s).value + rest) == Ok((s, rest))
  {
    var e := Encode(s);
    var input := WriteString(s).value + rest;
    assert input == e + ([0] + rest);
    FirstNulConcat(e, [0] + rest);
    assert FirstNul(input) == |e|;
    assert input[..|e|] == e;
    assert input[|e| + 1..] == rest;
    DecodeEncode(s);
  }

  // ----- the buffered reader -----

  /** The buffered reader `read_string` is given: `fill_buf` hands out the
      first pending chunk (empty at the end of input) and `consume` drops
      bytes from its front. How the input is cut into chunks depends on the
      underlying reads. */
  class BufReader {
    var pending: seq<Bytes>

    ghost predicate Valid()
      reads this
    {
      forall k | 0 <= k < |pending| :: pending[k] != []
    }

    /** All bytes still to be read. */
    function Remaining(): Bytes
      reads this
    {
      Flatten(pending)
    }

    constructor (chunks: seq<Bytes>)
      requires forall k | 0 <= k < |chunks| :: chunks[k] != []
      ensures pending == chunks && Valid()
    {
      pending := chunks;
    }

    function FillBuf(): (buf: Bytes)
      reads this
      ensures Valid() ==> (buf == [] <==> Remaining() == [])
      ensures pending != [] ==> Remaining() == buf + Flatten(pending[1..])
    {
      if pending == [] then [] else pending[0]
    }

    method Consume(n: nat)
      requires Valid() && n <= |FillBuf()|
      modifies this
      ensures Valid()
      ensures Remaining() == old(Remaining())[n..]
      ensures n < |old(FillBuf())| ==> pending == [old(FillBuf())[n..]] + old(pending)[1..]
      ensures n == |old(FillBuf())| && n > 0 ==> pending == old(pending)[1..]
    {
      if n == 0 {
        return;
      }
      var buf := pending[0];
      var tail := pending[1..];
      assert Remaining() == buf + Flatten(tail);
      if n < |buf| {
        pending := [buf[n..]] + tail;
        assert pending[1..] == tail;
      } else {
        pending := tail;
      }
    }
  }

  function Prepend(s: string, r: Result<string, Error>): Result<string, Error> {
    if r.Ok? then Ok(s + r.value) else r
  }

  /** `read_string` as written: each chunk is decoded on its own, the chunk
      holding the zero byte up to that byte, and the pieces are joined. */
  function ChunkedRead(pending: seq<Bytes>): (r: Result<string, Error>)
  {
    if pending == [] || pending[0] == [] then Err(UnexpectedEof)
    else
      var buf := pending[0];
      if 0 in buf then
        match Decode(buf[..FirstNul(buf)])
        case None => Err(InvalidUtf8)
        case Some(s) => Ok(s)
      else
        match Decode(buf)
        case None => Err(InvalidUtf8)
        case Some(s) => Prepend(s, ChunkedRead(pending[1..]))
  }

  /** When the code as written succeeds it agrees with decoding the bytes
      once. */
  lemma {:induction false} ChunkedReadAgrees(pending: seq<Bytes>)
    requires ChunkedRead(pending).Ok?
    ensures ReadStringFrom(Flatten(pending)).Ok?
    ensures ReadStringFrom(Flatten(pending)).value.0 == ChunkedRead(pending).value
  {
    var buf := pending[0];
    var all := Flatten(pending);
    assert all == buf + Flatten(pending[1..]);
    if 0 in buf {
      FirstNulPrefix(buf, Flatten(pending[1..]));
      assert all[..FirstNul(all)] == buf[..FirstNul(buf)];
    } else {
      var s := Decode(buf).value;
      ChunkedReadAgrees(pending[1..]);
      var tail := Flatten(pending[1..]);
      FirstNulConcat(buf, tail);
      var i := FirstNul(tail);
      assert all[..FirstNul(all)] == buf + tail[..i];
      DecodeConcat(buf, tail[..i]);
    }
  }

  /** The chunks `[0xC3]` and `[0xA9, 0x00]` carry a well-formed `é` and its
      terminator, yet the code as written fails on the first chunk. */
  lemma ChunkedReadSplitsCharacter()
    ensures ChunkedRead([[0xC3], [0xA9, 0x00]]) == Err(InvalidUtf8)
    ensures Flatten([[0xC3], [0xA9, 0x00]]) == [0xC3, 0xA9, 0x00]
    ensures ReadStringFrom([0xC3, 0xA9, 0x00]) == Ok((['\U{E9}'], []))
  {
    SplitCharacter();
    var p: seq<Bytes> := [[0xC3], [0xA9, 0x00]];
    assert p[1..] == [[0xA9, 0x00]];
    assert p[1..][1..] == [];
    var all: Bytes := [0xC3, 0xA9, 0x00];
    assert FirstNul(all) == 2;
    assert all[..2] == [0xC3, 0xA9];
    assert all[3..] == [];
  }

  lemma PrependEmpty(r: Result<string, Error>)
    ensures Prepend([], r) == r
  {
    if r.Ok? {
      assert [] + r.value == r.value;
    }
  }

  lemma PrependPrepend(a: string, b: string, r: Result<string, Error>)
    ensures Prepend(a, Prepend(b, r)) == Prepend(a + b, r)
  {
    if r.Ok? {
      assert a + (b + r.value) == (a + b) + r.value;
    }
  }

  /** A chunk without the zero byte contributes its text and reading goes on
      with the next chunk. */
  lemma ChunkedReadStep(pending: seq<Bytes>)
    requires pending != [] && pending[0] != [] && 0 !in pending[0] && Decode(pending[0]).Some?
    ensures ChunkedRead(pending) == Prepend(Decode(pending[0]).value, ChunkedRead(pending[1..]))
  {
  }

  /** The chunk holding the zero byte ends the string. */
  lemma ChunkedReadLast(pending: seq<Bytes>)
    requires pending != [] && 0 in pending[0]
    requires Decode(pending[0][..FirstNul(pending[0])]).Some?
    ensures ChunkedRead(pending) == Ok(Decode(pending[0][..FirstNul(pending[0])]).value)
  {
  }

  /** The loop's bookkeeping for a chunk without the zero byte: its text
      joins the parts read so far. */
  lemma ReadOnAfterChunk(parts: seq<string>, pending: seq<Bytes>)
    requires pending != [] && pending[0] != [] && 0 !in pending[0] && Decode(pending[0]).Some?
    ensures Prepend(Flatten(parts), ChunkedRead(pending))
         == Prepend(Flatten(parts + [Decode(pending[0]).value]), ChunkedRead(pending[1..]))
  {
    var s := Decode(pending[0]).value;
    ChunkedReadStep(pending);
    PrependPrepend(Flatten(parts), s, ChunkedRead(pending[1..]));
    FlattenAppend(parts, s);
  }

  /** The loop's bookkeeping for the chunk holding the zero byte. */
  lemma ReadEndsAtChunk(parts: seq<string>, pending: seq<Bytes>)
    requires pending != [] && 0 in pending[0]
    requires Decode(pending[0][..FirstNul(pending[0])]).Some?
    ensures Prepend(Flatten(parts), ChunkedRead(pending))
         == Ok(Flatten(parts + [Decode(pending[0][..FirstNul(pending[0])]).value]))
  {
    ChunkedReadLast(pending);
    FlattenAppend(parts, Decode(pending[0][..FirstNul(pending[0])]).value);
  }

  /** The loop's failures: the end of input, or a chunk that is not
      well-formed text. */
  lemma ReadFailsAtChunk(parts: seq<string>, pending: seq<Bytes>)
    ensures pending == [] || pending[0] == [] ==>
      Prepend(Flatten(parts), ChunkedRead(pending)) == Err(UnexpectedEof)
    ensures pending != [] && 0 in pending[0] && Decode(pending[0][..FirstNul(pending[0])]).None? ==>
      Prepend(Flatten(parts), ChunkedRead(pending)) == Err(InvalidUtf8)
    ensures pending != [] && pending[0] != [] && 0 !in pending[0] && Decode(pending[0]).None? ==>
      Prepend(Flatten(parts), ChunkedRead(pending)) == Err(InvalidUtf8)
  {
  }

  /** `read_string` as written. */
  method ReadStringAsWritten(reader: BufReader) returns (r: Result<string, Error>)
    requires reader.Valid()
    modifies reader
    ensures reader.Valid()
    ensures r == ChunkedRead(old(reader.pending))
    ensures r.Ok? ==> (0 in old(reader.Remaining())
                       && reader.Remaining() == old(reader.Remaining())[FirstNul(old(reader.Remaining())) + 1..])
  {
    ghost var all := reader.Remaining();
    ghost var expected := ChunkedRead(reader.pending);
    var parts: seq<string> := [];
    ghost var consumed: Bytes := [];
    PrependEmpty(expected);
    while true
      invariant reader.Valid()
      invariant consumed + reader.Remaining() == all
      invariant 0 !in consumed
      invariant expected == Prepend(Flatten(parts), ChunkedRead(reader.pending))
      decreases |reader.Remaining()|
    {
      ghost var pend := reader.pending;
      ghost var before := reader.Remaining();
      var buf := reader.FillBuf();
      if 0 in buf {
        var i := FirstNul(buf);
        var piece := Decode(buf[..i]);
        if piece.None? {
          ReadFailsAtChunk(parts, pend);
          return Err(InvalidUtf8);
        }
        ReadEndsAtChunk(parts, pend);
        parts := parts + [piece.value];
        FirstNulPrefix(buf, Flatten(pend[1..]));
        AfterFirstNul(consumed, before);
        reader.Consume(i + 1);
        assert reader.Remaining() == all[FirstNul(all) + 1..] by {
          assert all == consumed + before && FirstNul(before) == i;
        }
        break;
      }
      if buf == [] {
        ReadFailsAtChunk(parts, pend);
        return Err(UnexpectedEof);
      }
      var piece := Decode(buf);
      if piece.None? {
        ReadFailsAtChunk(parts, pend);
        return Err(InvalidUtf8);
      }
      ReadOnAfterChunk(parts, pend);
      parts := parts + [piece.value];
      consumed := consumed + buf;
      reader.Consume(|buf|);
      assert reader.pending == pend[1..];
    }
    r := Ok(Flatten(parts));
  }

  /** Reading a string from bytes that are some text, a zero byte and the
      rest. */
  lemma ReadStringFromParts(all: Bytes, raw: Bytes, rest: Bytes)
    requires all == raw + [0] + rest && 0 !in raw
    ensures Decode(raw).None? ==> ReadStringFrom(all) == Err(InvalidUtf8)
    ensures Decode(raw).Some? ==> ReadStringFrom(all) == Ok((Decode(raw).value, rest))
  {
    assert all == raw + ([0] + rest);
    FirstNulConcat(raw, [0] + rest);
    assert all[..|raw|] == raw;
    assert all[|raw| + 1..] == rest;
  }

  /** Bytes read so far without a zero byte, then a chunk that holds one:
      the text before the chunk's first zero byte, the zero byte and the
      rest. */
  lemma SplitAtNul(raw: Bytes, buf: Bytes, rest: Bytes)
    requires 0 !in raw && 0 in buf
    ensures 0 !in raw + buf[..FirstNul(buf)]
    ensures raw + (buf + rest) == raw + buf[..FirstNul(buf)] + [0] + (buf + rest)[FirstNul(buf) + 1..]
  {
    var i := FirstNul(buf);
    var all := raw + (buf + rest);
    var parts := raw + buf[..i] + [0] + (buf + rest)[i + 1..];
    assert |parts| == |all|;
    forall k | 0 <= k < |all| ensures parts[k] == all[k] {
      if k < |raw| {
        assert parts[k] == raw[k];
      } else if k < |raw| + i {
        assert parts[k] == buf[k - |raw|];
      } else if k > |raw| + i {
        assert parts[k] == (buf + rest)[k - |raw|];
      }
    }
  }

  /** `read_string` with the bytes collected before one decode: the result
      is a function of the remaining bytes alone, whatever the chunking. */
  method ReadString(reader: BufReader) returns (r: Result<string, Error>)
    requires reader.Valid()
    modifies reader
    ensures reader.Valid()
    ensures r.Ok? <==> ReadStringFrom(old(reader.Remaining())).Ok?
    ensures r.Ok? ==> ReadStringFrom(old(reader.Remaining())) == Ok((r.value, reader.Remaining()))
    ensures r.Err? ==> ReadStringFrom(old(reader.Remaining())) == Err(r.error)
  {
    ghost var all := reader.Remaining();
    var raw: Bytes := [];
    while true
      invariant reader.Valid()
      invariant raw + reader.Remaining() == all
      invariant 0 !in raw
      decreases |reader.Remaining()|
    {
      ghost var before := reader.Remaining();
      var buf := reader.FillBuf();
      if 0 in buf {
        var i := FirstNul(buf);
        SplitAtNul(raw, buf, Flatten(reader.pending[1..]));
        raw := raw + buf[..i];
        reader.Consume(i + 1);
        break;
      }
      if buf == [] {
        assert all == raw;
        return Err(UnexpectedEof);
      }
      assert (raw + buf) + Flatten(reader.pending[1..]) == all;
      raw := raw + buf;
      reader.Consume(|buf|);
    }
    ReadStringFromParts(all, raw, reader.Remaining());
    var text := Decode(raw);
    if text.None? {
      return Err(InvalidUtf8);
    }
    r := Ok(text.value);
  }
}
