/**
 The header of a sealed blob (include/lota_seal.h): written into a caller's
 buffer, and parsed from a blob that must have exactly the declared length.
 */
module SealHeader {
  import opened ByteCodec
  import opened DigestInputs
  import opened Errors

  const HEADER_SIZE := 52
  const MAGIC: U32 := 0x4C53454C
  const VERSION: U16 := 1
  const PCR_ALG_SHA256 := 0
  const PCR_MASK_ALL := 0x00FF_FFFF
  const MAX_PUB := 1024
  const MAX_PRIV := 1024
  const MAX_BLOB := 2100

  datatype Meta = Meta(pcrMask: U32, pcrAlg: Byte, pcrDigest: Digest, pubLen: U16, privLen: U16)

  /** A PCR is selected, and none above 23. */
  predicate ValidMask(mask: U32) {
    mask != 0 && mask <= PCR_MASK_ALL
  }

  predicate ValidMeta(m: Meta) {
    && ValidMask(m.pcrMask) && m.pcrAlg == PCR_ALG_SHA256
    && 0 < m.pubLen <= MAX_PUB && 0 < m.privLen <= MAX_PRIV
  }

  function HeaderBytes(m: Meta): (r: Bytes)
    ensures |r| == HEADER_SIZE
  {
    Le32(MAGIC) + Le16(VERSION) + [0, 0] + Le32(m.pcrMask) + [m.pcrAlg] + [0, 0, 0] + m.pcrDigest + Le16(m.pubLen)
    + Le16(m.privLen)
  }

  // ----- writing into a zeroed buffer, front to back

  /** The first `at` bytes are written, and the rest of the header is still zero. */
  ghost predicate Filled(out: array<Byte>, size: nat, at: nat, written: Bytes)
    reads out
  {
    && at <= size <= out.Length && out[..at] == written
    && forall i :: at <= i < size ==> out[i] == 0
  }

  method Zero(out: array<Byte>, size: nat)
    requires size <= out.Length
    modifies out
    ensures Filled(out, size, 0, []) && out[size..] == old(out[size..])
  {
    for i := 0 to size
      invariant forall j :: 0 <= j < i ==> out[j] == 0
      invariant out[size..] == old(out[size..])
    {
      out[i] := 0;
    }
  }

  method Put(out: array<Byte>, size: nat, at: nat, b: Bytes, ghost written: Bytes)
    requires Filled(out, size, at, written) && at + |b| <= size
    modifies out
    ensures Filled(out, size, at + |b|, written + b) && out[size..] == old(out[size..])
  {
    for i := 0 to |b|
      invariant out[..at + i] == written + b[..i]
      invariant forall j :: at + i <= j < size ==> out[j] == 0
      invariant out[size..] == old(out[size..])
    {
      out[at + i] := b[i];
      assert out[..at + i + 1] == out[..at + i] + [b[i]];
      Associative(written, b[..i], [b[i]]);
      assert b[..i + 1] == b[..i] + [b[i]];
    }
    assert b[..|b|] == b;
  }

  /** Reserved bytes keep the zeros of the cleared buffer. */
  lemma Skip(out: array<Byte>, size: nat, at: nat, n: nat, written: Bytes, zeros: Bytes)
    requires Filled(out, size, at, written) && at + n <= size && zeros == seq(n, _ => 0)
    ensures Filled(out, size, at + n, written + zeros)
  {
    assert out[..at + n] == out[..at] + zeros;
  }

  /** lota_seal_serialize_header. */
  method SerializeHeader(out: array<Byte>, m: Meta) returns (r: Option<Errno>)
    requires out.Length >= HEADER_SIZE
    modifies out
    ensures r.None? <==>
      && 0 < m.pcrMask < 0x100_0000 && m.pcrAlg == 0 && 0 < m.pubLen <= 1024 && 0 < m.privLen <= 1024
    ensures r.Some? ==> r.value == EINVAL
    ensures out[..] == if r.None? then HeaderBytes(m) + old(out[HEADER_SIZE..]) else old(out[..])
  {
    if !ValidMeta(m) {
      return Some(EINVAL);
    }
    hide Le16, Le32, Filled;
    ghost var tail := out[HEADER_SIZE..];
    Zero(out, HEADER_SIZE);
    Put(out, HEADER_SIZE, 0, Le32(MAGIC), []);
    ghost var w := [] + Le32(MAGIC);
    Put(out, HEADER_SIZE, 4, Le16(VERSION), w);
    w := w + Le16(VERSION);
    Skip(out, HEADER_SIZE, 6, 2, w, [0, 0]);
    w := w + [0, 0];
    Put(out, HEADER_SIZE, 8, Le32(m.pcrMask), w);
    w := w + Le32(m.pcrMask);
    Put(out, HEADER_SIZE, 12, [m.pcrAlg], w);
    w := w + [m.pcrAlg];
    Skip(out, HEADER_SIZE, 13, 3, w, [0, 0, 0]);
    w := w + [0, 0, 0];
    Put(out, HEADER_SIZE, 16, m.pcrDigest, w);
    w := w + m.pcrDigest;
    Put(out, HEADER_SIZE, 48, Le16(m.pubLen), w);
    w := w + Le16(m.pubLen);
    Put(out, HEADER_SIZE, 50, Le16(m.privLen), w);
    w := w + Le16(m.privLen);
    FilledWhole(out, HEADER_SIZE, w);
    assert [] + Le32(MAGIC) == Le32(MAGIC);
    assert w == HeaderBytes(m);
    assert out[..] == out[..HEADER_SIZE] + out[HEADER_SIZE..];
    return None;
  }

  lemma FilledWhole(out: array<Byte>, size: nat, written: Bytes)
    requires Filled(out, size, size, written)
    ensures size <= out.Length && out[..size] == written
  {
  }

  // ----- parsing

  function ReadMeta(buf: Bytes): Meta
    requires |buf| >= HEADER_SIZE
  {
    Meta(ReadLe32(buf, 8), buf[12], buf[16..48], ReadLe16(buf, 48), ReadLe16(buf, 50))
  }

  /** lota_seal_parse_header. */
  function Parse(buf: Bytes): Result<Meta> {
    if |buf| < HEADER_SIZE then Err(EMSGSIZE)
    else if ReadLe32(buf, 0) != MAGIC then Err(EINVAL)
    else if ReadLe16(buf, 4) != VERSION then Err(EINVAL)
    else if ReadLe16(buf, 6) != 0 then Err(EINVAL)
    else if buf[13] != 0 || buf[14] != 0 || buf[15] != 0 then Err(EINVAL)
    else
      var m := ReadMeta(buf);
      if !ValidMeta(m) then Err(EINVAL)
      else if HEADER_SIZE + m.pubLen + m.privLen != |buf| then Err(EMSGSIZE)
      else Ok(m)
  }

  /** The fixed fields and the meta fields, read one by one, are the header bytes. */
  lemma HeaderAt(buf: Bytes, m: Meta)
    requires |buf| >= HEADER_SIZE
    ensures buf[..HEADER_SIZE] == HeaderBytes(m) <==>
            && ReadLe32(buf, 0) == MAGIC && ReadLe16(buf, 4) == VERSION && ReadLe16(buf, 6) == 0
            && buf[13] == 0 && buf[14] == 0 && buf[15] == 0 && ReadMeta(buf) == m
  {
    hide Le16, Le32, ReadLe16, ReadLe32;
    var a, b, c, d := Le32(MAGIC), Le16(VERSION), [0, 0], Le32(m.pcrMask);
    Le32RoundTrip(buf, 0, MAGIC);
    Le16RoundTrip(buf, 4, VERSION);
    Le16RoundTrip(buf, 6, 0);
    assert Le16(0) == [0, 0] by { ZeroWord(); }
    Le32RoundTrip(buf, 8, m.pcrMask);
    Le16RoundTrip(buf, 48, m.pubLen);
    Le16RoundTrip(buf, 50, m.privLen);
    assert buf[12..13] == [buf[12]] && buf[13..16] == [buf[13], buf[14], buf[15]];
    FourAt(buf, 0, a, b, c, d);
    var h := a + b + c + d;
    FourAt(buf, 0, h, [m.pcrAlg], [0, 0, 0], m.pcrDigest);
    var g := h + [m.pcrAlg] + [0, 0, 0] + m.pcrDigest;
    ConcatAt(buf, 0, g, Le16(m.pubLen));
    ConcatAt(buf, 0, g + Le16(m.pubLen), Le16(m.privLen));
    assert buf[..HEADER_SIZE] == buf[0..HEADER_SIZE];
  }

  lemma ZeroWord()
    ensures Le16(0) == [0, 0]
  {
  }

  /**
   Both round trips at once: a blob parses to m exactly when m is valid, the
   blob begins with the serialisation of m, and it is as long as m declares.
   */
  lemma ParseIff(buf: Bytes, m: Meta)
    ensures Parse(buf) == Ok(m) <==>
            ValidMeta(m) && |buf| == HEADER_SIZE + m.pubLen + m.privLen && buf[..HEADER_SIZE] == HeaderBytes(m)
  {
    hide HeaderBytes, ReadMeta, ReadLe16, ReadLe32;
    if |buf| >= HEADER_SIZE {
      HeaderAt(buf, m);
      HeaderAt(buf, ReadMeta(buf));
    }
  }

  /** A refusal names the length only where a header is missing, or valid but not of this blob's length. */
  lemma ParseErrors(buf: Bytes)
    ensures Parse(buf) == Err(EMSGSIZE) <==>
            || |buf| < 52
            || (exists m: Meta :: ValidMeta(m) && buf[..52] == HeaderBytes(m) && |buf| != 52 + m.pubLen + m.privLen)
    ensures Parse(buf).Err? ==> Parse(buf).error in {EMSGSIZE, EINVAL}
  {
    hide HeaderBytes, ReadMeta, ReadLe16, ReadLe32;
    if |buf| >= HEADER_SIZE {
      HeaderAt(buf, ReadMeta(buf));
      forall m: Meta | buf[..52] == HeaderBytes(m) ensures m == ReadMeta(buf) {
        HeaderAt(buf, m);
      }
    }
  }

  /** Every strict prefix and every extension of an accepted blob is refused. */
  lemma OneLengthOnly(buf: Bytes, n: nat, more: Bytes)
    requires Parse(buf).Ok? && n < |buf| && more != []
    ensures Parse(buf[..n]).Err? && Parse(buf + more).Err?
  {
    hide ReadMeta, ReadLe16, ReadLe32, HeaderBytes, Parse;
    var m := Parse(buf).value;
    ParseIff(buf, m);
    if Parse(buf[..n]).Ok? {
      var k := Parse(buf[..n]).value;
      ParseIff(buf[..n], k);
      assert buf[..n][..HEADER_SIZE] == buf[..HEADER_SIZE];
      HeaderInjective(m, k);
    }
    if Parse(buf + more).Ok? {
      var k := Parse(buf + more).value;
      ParseIff(buf + more, k);
      assert (buf + more)[..HEADER_SIZE] == buf[..HEADER_SIZE];
      HeaderInjective(m, k);
    }
  }

  lemma HeaderInjective(a: Meta, b: Meta)
    requires HeaderBytes(a) == HeaderBytes(b)
    ensures a == b
  {
    hide HeaderBytes, ReadMeta, ReadLe16, ReadLe32;
    var h := HeaderBytes(a);
    assert h[..HEADER_SIZE] == h;
    HeaderAt(h, a);
    HeaderAt(h, b);
  }

  /** The header fields at their offsets. */
  lemma HeaderLayout(m: Meta)
    ensures var h := HeaderBytes(m);
            && ReadLe32(h, 0) == 0x4C53454C && ReadLe16(h, 4) == 1 && h[6..8] == [0, 0]
            && ReadLe32(h, 8) == m.pcrMask && h[12] == m.pcrAlg && h[13..16] == [0, 0, 0]
            && h[16..48] == m.pcrDigest && ReadLe16(h, 48) == m.pubLen && ReadLe16(h, 50) == m.privLen
  {
    hide HeaderBytes, ReadLe32, ReadLe16, Le16;
    var h := HeaderBytes(m);
    assert h[..HEADER_SIZE] == h;
    HeaderAt(h, m);
    Le16RoundTrip(h, 6, 0);
    assert Le16(0) == [0, 0] by { ZeroWord(); }
  }
}
