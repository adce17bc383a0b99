/**
 The header of a sealed envelope (include/lota_envelope.h), and the magic test
 that tells envelopes from directly sealed blobs.
 */
module EnvelopeHeader {
  import opened ByteCodec
  import opened Errors
  import SealHeader

  const HEADER_SIZE := 48
  const MAGIC: U32 := 0x564E454C
  const VERSION: U16 := 1
  const MAX_PAYLOAD := 65536

  type Nonce = b: Bytes | |b| == 12 witness seq(12, _ => 0)
  type Tag = b: Bytes | |b| == 16 witness seq(16, _ => 0)

  datatype Meta = Meta(kekBlobLen: U16, payloadLen: U32, nonce: Nonce, tag: Tag)

  predicate ValidMeta(m: Meta) {
    0 < m.kekBlobLen <= SealHeader.MAX_BLOB && 0 < m.payloadLen <= MAX_PAYLOAD
  }

  function HeaderBytes(m: Meta): (r: Bytes)
    ensures |r| == HEADER_SIZE
  {
    Le32(MAGIC) + Le16(VERSION) + [0, 0] + Le16(m.kekBlobLen) + [0, 0] + Le32(m.payloadLen) + m.nonce + m.tag
    + [0, 0, 0, 0]
  }

  /** lota_envelope_serialize_header. */
  method SerializeHeader(out: array<Byte>, m: Meta) returns (r: Option<Errno>)
    requires out.Length >= HEADER_SIZE
    modifies out
    ensures r.None? <==> 0 < m.kekBlobLen <= 2100 && 0 < m.payloadLen <= 65536
    ensures r.Some? ==> r.value == EINVAL
    ensures out[..] == if r.None? then HeaderBytes(m) + old(out[HEADER_SIZE..]) else old(out[..])
  {
    if !ValidMeta(m) {
      return Some(EINVAL);
    }
    hide Le16, Le32, SealHeader.Filled;
    SealHeader.Zero(out, HEADER_SIZE);
    SealHeader.Put(out, HEADER_SIZE, 0, Le32(MAGIC), []);
    ghost var w := [] + Le32(MAGIC);
    SealHeader.Put(out, HEADER_SIZE, 4, Le16(VERSION), w);
    w := w + Le16(VERSION);
    SealHeader.Skip(out, HEADER_SIZE, 6, 2, w, [0, 0]);
    w := w + [0, 0];
    SealHeader.Put(out, HEADER_SIZE, 8, Le16(m.kekBlobLen), w);
    w := w + Le16(m.kekBlobLen);
    SealHeader.Skip(out, HEADER_SIZE, 10, 2, w, [0, 0]);
    w := w + [0, 0];
    SealHeader.Put(out, HEADER_SIZE, 12, Le32(m.payloadLen), w);
    w := w + Le32(m.payloadLen);
    SealHeader.Put(out, HEADER_SIZE, 16, m.nonce, w);
    w := w + m.nonce;
    SealHeader.Put(out, HEADER_SIZE, 28, m.tag, w);
    w := w + m.tag;
    SealHeader.Skip(out, HEADER_SIZE, 44, 4, w, [0, 0, 0, 0]);
    w := w + [0, 0, 0, 0];
    SealHeader.FilledWhole(out, HEADER_SIZE, w);
    assert [] + Le32(MAGIC) == Le32(MAGIC);
    assert w == HeaderBytes(m);
    assert out[..] == out[..HEADER_SIZE] + out[HEADER_SIZE..];
    return None;
  }

  function ReadMeta(buf: Bytes): Meta
    requires |buf| >= HEADER_SIZE
  {
    Meta(ReadLe16(buf, 8), ReadLe32(buf, 12), buf[16..28], buf[28..44])
  }

  /** lota_envelope_parse_header. */
  function Parse(buf: Bytes): Result<Meta> {
    if |buf| < HEADER_SIZE then Err(EMSGSIZE)
    else if ReadLe32(buf, 0) != MAGIC then Err(EINVAL)
    else if ReadLe16(buf, 4) != VERSION then Err(EINVAL)
    else if ReadLe16(buf, 6) != 0 then Err(EINVAL)
    else if ReadLe16(buf, 10) != 0 then Err(EINVAL)
    else if buf[44] != 0 || buf[45] != 0 || buf[46] != 0 || buf[47] != 0 then Err(EINVAL)
    else
      var m := ReadMeta(buf);
      if !ValidMeta(m) then Err(EINVAL)
      else if HEADER_SIZE + m.kekBlobLen + m.payloadLen != |buf| then Err(EMSGSIZE)
      else Ok(m)
  }

  lemma HeaderAt(buf: Bytes, m: Meta)
    requires |buf| >= HEADER_SIZE
    ensures buf[..HEADER_SIZE] == HeaderBytes(m) <==>
            && ReadLe32(buf, 0) == MAGIC && ReadLe16(buf, 4) == VERSION
            && ReadLe16(buf, 6) == 0 && ReadLe16(buf, 10) == 0
            && buf[44] == 0 && buf[45] == 0 && buf[46] == 0 && buf[47] == 0 && ReadMeta(buf) == m
  {
    hide Le16, Le32, ReadLe16, ReadLe32;
    var a, b, c, d := Le32(MAGIC), Le16(VERSION), [0, 0], Le16(m.kekBlobLen);
    Le32RoundTrip(buf, 0, MAGIC);
    Le16RoundTrip(buf, 4, VERSION);
    Le16RoundTrip(buf, 6, 0);
    Le16RoundTrip(buf, 8, m.kekBlobLen);
    Le16RoundTrip(buf, 10, 0);
    Le32RoundTrip(buf, 12, m.payloadLen);
    assert Le16(0) == [0, 0] by { SealHeader.ZeroWord(); }
    assert buf[44..48] == [buf[44], buf[45], buf[46], buf[47]];
    FourAt(buf, 0, a, b, c, d);
    var h := a + b + c + d;
    FourAt(buf, 0, h, [0, 0], Le32(m.payloadLen), m.nonce);
    var g := h + [0, 0] + Le32(m.payloadLen) + m.nonce;
    ConcatAt(buf, 0, g, m.tag);
    ConcatAt(buf, 0, g + m.tag, [0, 0, 0, 0]);
    assert buf[..HEADER_SIZE] == buf[0..HEADER_SIZE];
  }

  /** Both round trips at once, as for sealed blobs. */
  lemma ParseIff(buf: Bytes, m: Meta)
    ensures Parse(buf) == Ok(m) <==>
            ValidMeta(m) && |buf| == HEADER_SIZE + m.kekBlobLen + m.payloadLen && buf[..HEADER_SIZE] == HeaderBytes(m)
  {
    hide HeaderBytes, ReadMeta, ReadLe16, ReadLe32;
    if |buf| >= HEADER_SIZE {
      HeaderAt(buf, m);
      HeaderAt(buf, ReadMeta(buf));
    }
  }

  /** A refusal names the length only where a header is missing, or valid but not of this envelope's length. */
  lemma ParseErrors(buf: Bytes)
    ensures Parse(buf) == Err(EMSGSIZE) <==>
            || |buf| < 48
            || (exists m: Meta ::
                  ValidMeta(m) && buf[..48] == HeaderBytes(m) && |buf| != 48 + m.kekBlobLen + m.payloadLen)
    ensures Parse(buf).Err? ==> Parse(buf).error in {EMSGSIZE, EINVAL}
  {
    hide HeaderBytes, ReadMeta, ReadLe16, ReadLe32;
    if |buf| >= HEADER_SIZE {
      HeaderAt(buf, ReadMeta(buf));
      forall m: Meta | buf[..48] == HeaderBytes(m) ensures m == ReadMeta(buf) {
        HeaderAt(buf, m);
      }
    }
  }

  /** lota_envelope_is_envelope. */
  predicate IsEnvelope(buf: Bytes) {
    |buf| >= 4 && ReadLe32(buf, 0) == MAGIC
  }

  /** The magic test sends every acceptable blob to the one decoder that accepts it. */
  lemma MagicDecides(buf: Bytes)
    ensures Parse(buf).Ok? ==> IsEnvelope(buf) && SealHeader.Parse(buf).Err?
    ensures SealHeader.Parse(buf).Ok? ==> !IsEnvelope(buf) && Parse(buf).Err?
  {
  }

  /** The header fields at their offsets. */
  lemma HeaderLayout(m: Meta)
    ensures var h := HeaderBytes(m);
            && ReadLe32(h, 0) == 0x564E454C && ReadLe16(h, 4) == 1 && ReadLe16(h, 6) == 0
            && ReadLe16(h, 8) == m.kekBlobLen && ReadLe16(h, 10) == 0 && ReadLe32(h, 12) == m.payloadLen
            && h[16..28] == m.nonce && h[28..44] == m.tag && h[44..48] == [0, 0, 0, 0]
  {
    hide HeaderBytes, ReadLe32, ReadLe16;
    var h := HeaderBytes(m);
    assert h[..HEADER_SIZE] == h;
    HeaderAt(h, m);
  }

  /** An envelope is told by its first four bytes, "LENV", however short it is. */
  lemma EnvelopeStarts(buf: Bytes)
    ensures IsEnvelope(buf) <==> |buf| >= 4 && buf[..4] == [0x4C, 0x45, 0x4E, 0x56]
  {
    if |buf| >= 4 {
      Le32RoundTrip(buf, 0, MAGIC);
      assert Le32(MAGIC) == [0x4C, 0x45, 0x4E, 0x56];
      assert buf[0..4] == buf[..4];
    }
  }
}
