/**
 The GET_TOKEN reply payload (struct lota_ipc_token in include/lota_ipc.h and
 the variable part behind it), as the agent writes it and as the SDK reads it
 (lota_get_token in src/sdk/lota_gaming.c).
 */
module TokenFormat {
  import opened ByteCodec
  import opened DigestInputs

  const HEADER_SIZE := 136
  const MAX_PAYLOAD := 8192
  const MAX_ATTEST := 1024
  const MAX_SIG := 512
  const MAX_PIDS := 1024
  const SDK_BUFFER := 5768
  const PROTECT_V2 := 2

  type Attest = b: Bytes | |b| <= MAX_ATTEST witness []
  type Signature = b: Bytes | |b| <= MAX_SIG witness []

  /** The fixed header, field by field. */
  datatype Header = Header(
    meta: Metadata, policy: Digest, protect: Digest,
    attestSize: U16, sigSize: U16, sigAlg: U16, hashAlg: U16,
    count: U32, listSize: U16, version: U16)

  /** Everything a token carries. */
  datatype Token = Token(
    meta: Metadata, policy: Digest, protect: Digest,
    sigAlg: U16, hashAlg: U16, version: U16,
    pids: seq<U32>, images: seq<Digest>, attest: Attest, signature: Signature)

  /** The image digests are there in version 2 only, one per PID. */
  ghost predicate WellformedToken(t: Token) {
    && |t.pids| <= MAX_PIDS && t.version <= PROTECT_V2
    && |t.images| == (if t.version == PROTECT_V2 then |t.pids| else 0)
  }

  function HeaderOf(t: Token): Header
    requires |t.pids| <= MAX_PIDS
  {
    Header(t.meta, t.policy, t.protect, |t.attest|, |t.signature|, t.sigAlg, t.hashAlg,
           |t.pids|, 4 * |t.pids|, t.version)
  }

  // ----- writing

  function QuotePart(d: Header): (r: Bytes)
    ensures |r| == 12
  {
    Le16(d.attestSize) + Le16(d.sigSize) + Le16(d.sigAlg) + Le16(d.hashAlg) + Le32(d.meta.pcrMask)
  }

  function RuntimePart(d: Header): (r: Bytes)
    ensures |r| == 16
  {
    Le32(d.count) + Le64(d.meta.epoch) + Le16(d.listSize) + Le16(d.version)
  }

  function HeaderBytes(d: Header): (r: Bytes)
    ensures |r| == HEADER_SIZE
  {
    Le64(d.meta.validUntil) + Le32(d.meta.flags) + d.meta.nonce + QuotePart(d) + d.policy + d.protect + RuntimePart(d)
  }

  function Flat(ds: seq<Digest>): (r: Bytes)
    ensures |r| == 32 * |ds|
  {
    if ds == [] then [] else ds[0] + Flat(ds[1..])
  }

  function Body(t: Token): Bytes {
    Words(t.pids) + Flat(t.images) + t.attest + t.signature
  }

  function Payload(t: Token): (r: Bytes)
    requires |t.pids| <= MAX_PIDS
  {
    HeaderBytes(HeaderOf(t)) + Body(t)
  }

  // ----- reading

  function ReadHeader(p: Bytes): Header
    requires |p| >= HEADER_SIZE
  {
    Header(
      Metadata(ReadLe64(p, 0), ReadLe32(p, 8), ReadLe32(p, 52), p[12..44], ReadLe64(p, 124)),
      p[56..88], p[88..120],
      ReadLe16(p, 44), ReadLe16(p, 46), ReadLe16(p, 48), ReadLe16(p, 50),
      ReadLe32(p, 120), ReadLe16(p, 132), ReadLe16(p, 134))
  }

  lemma QuotePartAt(p: Bytes, d: Header)
    requires |p| >= HEADER_SIZE
    ensures p[44..56] == QuotePart(d) <==>
            && ReadLe16(p, 44) == d.attestSize && ReadLe16(p, 46) == d.sigSize
            && ReadLe16(p, 48) == d.sigAlg && ReadLe16(p, 50) == d.hashAlg && ReadLe32(p, 52) == d.meta.pcrMask
  {
    hide Le16, Le32, ReadLe16, ReadLe32;
    var a, b, c, e, f := Le16(d.attestSize), Le16(d.sigSize), Le16(d.sigAlg), Le16(d.hashAlg), Le32(d.meta.pcrMask);
    Le16RoundTrip(p, 44, d.attestSize);
    Le16RoundTrip(p, 46, d.sigSize);
    Le16RoundTrip(p, 48, d.sigAlg);
    Le16RoundTrip(p, 50, d.hashAlg);
    Le32RoundTrip(p, 52, d.meta.pcrMask);
    ConcatAt(p, 44, a, b);
    ConcatAt(p, 44, a + b, c);
    ConcatAt(p, 44, a + b + c, e);
    ConcatAt(p, 44, a + b + c + e, f);
  }

  lemma RuntimePartAt(p: Bytes, d: Header)
    requires |p| >= HEADER_SIZE
    ensures p[120..136] == RuntimePart(d) <==>
            && ReadLe32(p, 120) == d.count && ReadLe64(p, 124) == d.meta.epoch
            && ReadLe16(p, 132) == d.listSize && ReadLe16(p, 134) == d.version
  {
    hide Le16, Le32, Le64, ReadLe16, ReadLe32, ReadLe64;
    var a, b, c, e := Le32(d.count), Le64(d.meta.epoch), Le16(d.listSize), Le16(d.version);
    Le32RoundTrip(p, 120, d.count);
    Le64RoundTrip(p, 124, d.meta.epoch);
    Le16RoundTrip(p, 132, d.listSize);
    Le16RoundTrip(p, 134, d.version);
    ConcatAt(p, 120, a, b);
    ConcatAt(p, 120, a + b, c);
    ConcatAt(p, 120, a + b + c, e);
  }

  /** Reading a header and writing it are inverse to each other, both ways. */
  lemma HeaderRoundTrip(p: Bytes, d: Header)
    requires |p| >= HEADER_SIZE
    ensures ReadHeader(p) == d <==> p[..HEADER_SIZE] == HeaderBytes(d)
  {
    hide Le32, Le64, ReadLe16, ReadLe32, ReadLe64, QuotePart, RuntimePart;
    var a, b, c := Le64(d.meta.validUntil), Le32(d.meta.flags), d.meta.nonce;
    var e, f, g, k := QuotePart(d), d.policy, d.protect, RuntimePart(d);
    Le64RoundTrip(p, 0, d.meta.validUntil);
    Le32RoundTrip(p, 8, d.meta.flags);
    QuotePartAt(p, d);
    RuntimePartAt(p, d);
    ConcatAt(p, 0, a, b);
    ConcatAt(p, 0, a + b, c);
    ConcatAt(p, 0, a + b + c, e);
    ConcatAt(p, 0, a + b + c + e, f);
    ConcatAt(p, 0, a + b + c + e + f, g);
    ConcatAt(p, 0, a + b + c + e + f + g, k);
    assert p[..HEADER_SIZE] == p[0..HEADER_SIZE];
  }

  function ReadWords(p: Bytes, at: nat, n: nat): (r: seq<U32>)
    requires at + 4 * n <= |p|
    ensures |r| == n
    decreases n
  {
    if n == 0 then [] else [ReadLe32(p, at)] + ReadWords(p, at + 4, n - 1)
  }

  function ReadDigests(p: Bytes, at: nat, n: nat): (r: seq<Digest>)
    requires at + 32 * n <= |p|
    ensures |r| == n
    decreases n
  {
    if n == 0 then [] else [p[at..at + 32]] + ReadDigests(p, at + 32, n - 1)
  }

  lemma {:induction false} WordsSize(ws: seq<U32>)
    ensures |Words(ws)| == 4 * |ws|
  {
    if ws != [] { WordsSize(ws[1..]); }
  }

  lemma {:induction false} WordsRoundTrip(p: Bytes, at: nat, ws: seq<U32>)
    requires at + 4 * |ws| <= |p|
    ensures |Words(ws)| == 4 * |ws|
    ensures ReadWords(p, at, |ws|) == ws <==> p[at..at + 4 * |ws|] == Words(ws)
    decreases |ws|
  {
    hide Le32, ReadLe32;
    WordsSize(ws);
    if ws == [] {
    } else {
      var tail := ws[1..];
      WordsRoundTrip(p, at + 4, tail);
      Le32RoundTrip(p, at, ws[0]);
      ConcatAt(p, at, Le32(ws[0]), Words(tail));
      ConsEqual(ws, ReadLe32(p, at), ReadWords(p, at + 4, |tail|));
    }
  }

  lemma ConsEqual<T>(s: seq<T>, x: T, t: seq<T>)
    requires s != []
    ensures [x] + t == s <==> x == s[0] && t == s[1..]
  {
    assert s == [s[0]] + s[1..];
    if [x] + t == s { assert ([x] + t)[1..] == t; }
  }

  lemma FlatCons(ds: seq<Digest>)
    requires ds != []
    ensures Flat(ds) == ds[0] + Flat(ds[1..])
  {
  }

  lemma ReadDigestsCons(p: Bytes, at: nat, n: nat)
    requires n > 0 && at + 32 * n <= |p|
    ensures ReadDigests(p, at, n) == [p[at..at + 32]] + ReadDigests(p, at + 32, n - 1)
  {
  }

  lemma {:induction false} DigestsRoundTrip(p: Bytes, at: nat, ds: seq<Digest>)
    requires at + 32 * |ds| <= |p|
    ensures ReadDigests(p, at, |ds|) == ds <==> p[at..at + 32 * |ds|] == Flat(ds)
    decreases |ds|
  {
    if ds == [] {
    } else {
      hide Flat, ReadDigests;
      var d, tail := ds[0], ds[1..];
      var n := 32 * |tail|;
      FlatCons(ds);
      ReadDigestsCons(p, at, |ds|);
      DigestsRoundTrip(p, at + 32, tail);
      assert at + |d| + |Flat(tail)| == at + 32 + n == at + 32 * |ds|;
      ConcatAt(p, at, d, Flat(tail));
      ConsEqual(ds, p[at..at + 32], ReadDigests(p, at + 32, |tail|));
    }
  }

  // ----- the SDK's reader

  function ImageCount(d: Header): nat {
    if d.version == PROTECT_V2 then d.count else 0
  }

  /** Where the variable fields end, by the header's own sizes. */
  function End(d: Header): nat {
    HEADER_SIZE + d.listSize + 32 * ImageCount(d) + d.attestSize + d.sigSize
  }

  predicate AcceptableHeader(d: Header) {
    && d.listSize == 4 * d.count % 0x1_0000 && d.listSize <= 4 * MAX_PIDS && d.count <= MAX_PIDS
    && d.version <= PROTECT_V2 && d.attestSize <= MAX_ATTEST && d.sigSize <= MAX_SIG
  }

  lemma ListSize(d: Header)
    requires d.count <= MAX_PIDS
    ensures 4 * d.count % 0x1_0000 == 4 * d.count
  {
  }

  function ReadToken(p: Bytes, d: Header): Token
    requires AcceptableHeader(d) && d.listSize == 4 * d.count && End(d) <= |p|
  {
    var at := HEADER_SIZE + 4 * d.count;
    var quote := at + 32 * ImageCount(d);
    Token(d.meta, d.policy, d.protect, d.sigAlg, d.hashAlg, d.version,
          ReadWords(p, HEADER_SIZE, d.count), ReadDigests(p, at, ImageCount(d)),
          p[quote..quote + d.attestSize], p[quote + d.attestSize..quote + d.attestSize + d.sigSize])
  }

  /** lota_get_token on a received payload; None is LOTA_ERR_PROTOCOL. */
  function Parse(p: Bytes): Option<Token> {
    if |p| > SDK_BUFFER || |p| < HEADER_SIZE then None
    else
      var d := ReadHeader(p);
      if !AcceptableHeader(d) || |p| < End(d) then None
      else
        ListSize(d);
        Some(ReadToken(p, d))
  }

  lemma PayloadSize(t: Token)
    requires |t.pids| <= MAX_PIDS
    ensures |Words(t.pids)| == 4 * |t.pids|
    ensures |Payload(t)| == HEADER_SIZE + 4 * |t.pids| + 32 * |t.images| + |t.attest| + |t.signature|
    ensures WellformedToken(t) ==> |Payload(t)| == End(HeaderOf(t))
  {
    hide HeaderBytes, Words, Flat;
    WordsSize(t.pids);
  }

  lemma BodyAt(p: Bytes, at: nat, t: Token)
    requires at + 4 * |t.pids| + 32 * |t.images| + |t.attest| + |t.signature| <= |p|
    ensures |Body(t)| == 4 * |t.pids| + 32 * |t.images| + |t.attest| + |t.signature|
    ensures var images := at + 4 * |t.pids|; var quote := images + 32 * |t.images|;
            p[at..at + |Body(t)|] == Body(t) <==>
            && ReadWords(p, at, |t.pids|) == t.pids && ReadDigests(p, images, |t.images|) == t.images
            && p[quote..quote + |t.attest|] == t.attest
            && p[quote + |t.attest|..quote + |t.attest| + |t.signature|] == t.signature
  {
    hide Words, Flat, ReadWords, ReadDigests;
    var b, c := Words(t.pids), Flat(t.images);
    WordsRoundTrip(p, at, t.pids);
    DigestsRoundTrip(p, at + 4 * |t.pids|, t.images);
    FourAt(p, at, b, c, t.attest, t.signature);
  }

  /** The payload of a token lies at the start of p exactly when reading p gives that token. */
  lemma PayloadAt(p: Bytes, t: Token)
    requires WellformedToken(t) && |p| >= |Payload(t)|
    ensures p[..|Payload(t)|] == Payload(t) <==>
            && ReadHeader(p) == HeaderOf(t) && AcceptableHeader(HeaderOf(t)) && End(HeaderOf(t)) <= |p|
            && ReadToken(p, HeaderOf(t)) == t
  {
    hide HeaderBytes, ReadHeader, Body, Words, ReadWords, ReadDigests;
    PayloadSize(t);
    BodyAt(p, HEADER_SIZE, t);
    HeaderRoundTrip(p, HeaderOf(t));
    ConcatAt(p, 0, HeaderBytes(HeaderOf(t)), Body(t));
    assert p[..|Payload(t)|] == p[0..|Payload(t)|];
    assert p[..HEADER_SIZE] == p[0..HEADER_SIZE];
    ListSize(HeaderOf(t));
  }

  /** The SDK reads back every token, field for field, exactly when it fits the SDK's buffer. */
  lemma ParseInvertsPayload(t: Token)
    requires WellformedToken(t)
    ensures Parse(Payload(t)) == if |Payload(t)| <= SDK_BUFFER then Some(t) else None
    ensures |Payload(t)| >= HEADER_SIZE && |Payload(t)| == End(ReadHeader(Payload(t)))
  {
    hide ReadHeader, ReadToken, Payload, HeaderOf, AcceptableHeader, End;
    var p := Payload(t);
    PayloadSize(t);
    PayloadAt(p, t);
    assert p[..|p|] == p;
  }

  /** 160 protected PIDs make a token the agent may send and the SDK refuses. */
  lemma SdkRefusesLargeToken(meta: Metadata, policy: Digest, protect: Digest) returns (t: Token)
    ensures WellformedToken(t) && t.version == PROTECT_V2 && |t.pids| == 160
    ensures SDK_BUFFER < |Payload(t)| <= MAX_PAYLOAD && Parse(Payload(t)) == None
  {
    var pids := seq(160, i requires 0 <= i < 160 => i + 1);
    t := Token(meta, policy, protect, 0, 0, PROTECT_V2, pids, seq(160, _ => policy), [], []);
    PayloadSize(t);
    ParseInvertsPayload(t);
  }

  /** Whatever the SDK accepts begins with the payload of the token it returns. */
  lemma ParsedIsPayload(p: Bytes)
    requires Parse(p).Some?
    ensures var t := Parse(p).value; WellformedToken(t) && Payload(t) <= p && |Payload(t)| == End(ReadHeader(p))
  {
    hide ReadHeader, ReadWords, ReadDigests, Payload;
    var d := ReadHeader(p);
    ListSize(d);
    var t := ReadToken(p, d);
    assert WellformedToken(t) && HeaderOf(t) == d;
    PayloadSize(t);
    PayloadAt(p, t);
  }

  /** lota_get_token: the PIDs are read in a loop, the rest is copied. */
  method GetTokenSdk(p: Bytes) returns (r: Option<Token>)
    ensures r == Parse(p)
  {
    hide ReadHeader, ReadWords, ReadDigests;
    if |p| > SDK_BUFFER || |p| < HEADER_SIZE {
      return None;
    }
    var d := ReadHeader(p);
    if d.listSize != 4 * d.count % 0x1_0000 || d.listSize > 4 * MAX_PIDS || d.count > MAX_PIDS || d.version > PROTECT_V2
       || d.attestSize > MAX_ATTEST || d.sigSize > MAX_SIG {
      return None;
    }
    ListSize(d);
    if |p| < End(d) {
      return None;
    }
    var pids, at := CopyPids(p, d.count);
    var images := ReadDigests(p, at, ImageCount(d));
    at := at + 32 * ImageCount(d);
    var attest := p[at..at + d.attestSize];
    at := at + d.attestSize;
    return Some(Token(d.meta, d.policy, d.protect, d.sigAlg, d.hashAlg, d.version,
                      pids, images, attest, p[at..at + d.sigSize]));
  }

  method CopyPids(p: Bytes, count: nat) returns (pids: seq<U32>, at: nat)
    requires HEADER_SIZE + 4 * count <= |p|
    ensures pids == ReadWords(p, HEADER_SIZE, count) && at == HEADER_SIZE + 4 * count
  {
    hide ReadLe32;
    pids, at := [], HEADER_SIZE;
    for i := 0 to count
      invariant at == HEADER_SIZE + 4 * i && |pids| == i
      invariant pids + ReadWords(p, at, count - i) == ReadWords(p, HEADER_SIZE, count)
    {
      Associative(pids, [ReadLe32(p, at)], ReadWords(p, at + 4, count - i - 1));
      pids := pids + [ReadLe32(p, at)];
      at := at + 4;
    }
  }

  /** The agent's writer: header, PIDs in a loop, image digests, quote. */
  method WritePayload(t: Token) returns (out: Bytes)
    requires |t.pids| <= MAX_PIDS
    ensures out == Payload(t)
  {
    hide HeaderBytes, Le32, Flat;
    var head := HeaderBytes(HeaderOf(t));
    out := head;
    for i := 0 to |t.pids|
      invariant out + Words(t.pids[i..]) == head + Words(t.pids)
    {
      assert t.pids[i..][1..] == t.pids[i + 1..];
      Associative(out, Le32(t.pids[i]), Words(t.pids[i + 1..]));
      out := out + Le32(t.pids[i]);
    }
    assert out + [] == out;
    out := out + Flat(t.images);
    out := out + t.attest;
    out := out + t.signature;
    Associative(head, Words(t.pids), Flat(t.images));
    Associative(head, Words(t.pids) + Flat(t.images), t.attest);
    Associative(head, Words(t.pids) + Flat(t.images) + t.attest, t.signature);
  }

  /** The fixed part of a token, field by field, as struct lota_ipc_token lays it out. */
  lemma TokenLayout(t: Token)
    requires |t.pids| <= MAX_PIDS
    ensures var p := Payload(t);
            && |p| >= 136 && ReadLe64(p, 0) == t.meta.validUntil && ReadLe32(p, 8) == t.meta.flags
            && p[12..44] == t.meta.nonce && ReadLe16(p, 44) == |t.attest| && ReadLe16(p, 46) == |t.signature|
            && ReadLe16(p, 48) == t.sigAlg && ReadLe16(p, 50) == t.hashAlg && ReadLe32(p, 52) == t.meta.pcrMask
            && p[56..88] == t.policy && p[88..120] == t.protect && ReadLe32(p, 120) == |t.pids|
            && ReadLe64(p, 124) == t.meta.epoch && ReadLe16(p, 132) == 4 * |t.pids| && ReadLe16(p, 134) == t.version
  {
    hide HeaderBytes, Body, ReadLe16, ReadLe32, ReadLe64;
    var p := Payload(t);
    assert p[..HEADER_SIZE] == HeaderBytes(HeaderOf(t));
    HeaderRoundTrip(p, HeaderOf(t));
  }
}
