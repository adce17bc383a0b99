/**
 GET_TOKEN (handle_get_token in src/agent/ipc.c): the runtime PID list is
 measured, hashed and quoted, and the reply carries everything needed to
 recompute the nonce that was quoted.

 The TPM is a partial function from nonces to quotes; /proc is a function from
 PIDs to parsed maps lines.
 */
module GetToken {
  import opened BitWords
  import opened ByteCodec
  import opened Canonical
  import opened DigestInputs
  import opened Errors
  import opened ImageMeasure
  import opened ProtectDigest
  import opened TokenFormat
  import ProtectedPids

  const STATUS_ATTESTED := 0
  const STATUS_TPM_LOCKOUT := 5

  datatype Code = NotAttested | TpmLockout | RateLimited | Internal | TpmFailure

  datatype Reply = Error(code: Code) | Issued(payload: Bytes)

  datatype Quote = Quote(attest: Attest, signature: Signature, sigAlg: U16, hashAlg: U16, pcrMask: U32)

  /** The agent's status when the request arrives. */
  datatype Status = Status(validUntil: U64, flags: U32, pcrMask: U32)

  type Maps = U32 -> seq<Line>
  type Tpm = Bytes -> Option<Quote>

  // ----- measuring the protected processes

  ghost predicate AllMeasured(pids: seq<U32>, maps: Maps, measure: Measure) {
    forall i :: 0 <= i < |pids| ==> Measured(maps(pids[i]), measure)
  }

  ghost function Processes(pids: seq<U32>, maps: Maps, measure: Measure): (r: seq<Process>)
    requires AllMeasured(pids, maps, measure)
    ensures |r| == |pids|
    ensures forall i :: 0 <= i < |r| ==> r[i] == Process(pids[i], ImageOf(maps(pids[i]), measure))
  {
    seq(|pids|, i requires 0 <= i < |pids| => Process(pids[i], ImageOf(maps(pids[i]), measure)))
  }

  /** One image digest per PID, or a failure if any process cannot be measured. */
  method MeasureAll(h: Hash, pids: seq<U32>, maps: Maps, measure: Measure) returns (r: Result<seq<Digest>>)
    requires IsHash(h)
    ensures r.Ok? <==> AllMeasured(pids, maps, measure)
    ensures r.Ok? ==> |r.value| == |pids|
    ensures r.Ok? ==> forall i :: 0 <= i < |pids| ==> r.value[i] == ImageDigest(h, ImageOf(maps(pids[i]), measure))
  {
    hide Measured, ImageOf, ImageInput;
    var images: seq<Digest> := [];
    for i := 0 to |pids|
      invariant |images| == i
      invariant forall j :: 0 <= j < i ==> Measured(maps(pids[j]), measure)
      invariant forall j :: 0 <= j < i ==> images[j] == ImageDigest(h, ImageOf(maps(pids[j]), measure))
    {
      var image := MeasurePid(h, maps(pids[i]), measure);
      if image.Err? {
        return Err(image.error);
      }
      images := images + [image.value];
    }
    return Ok(images);
  }

  // ----- what a reply promises

  /** Recomputing the digests from the fields of a token gives the digest it carries and the nonce. */
  ghost predicate Verifies(h: Hash, t: Token, nonce: Bytes) {
    && |t.pids| == |t.images| <= MAX_PIDS
    && t.protect == h(ProtectInputV2(t.pids, t.images)) && nonce == h(NonceInput(t.meta, t.policy, t.protect))
  }

  /** The token says what the statement says. */
  ghost predicate States(h: Hash, t: Token, s: Statement)
    requires IsHash(h)
  {
    && Encodable(s) && s.meta == t.meta && s.policy == t.policy
    && t.pids == Pids(s) && t.images == Images(h, s)
  }

  lemma StatedNonce(h: Hash, t: Token, s: Statement, nonce: Bytes)
    requires IsHash(h) && States(h, t, s) && Verifies(h, t, nonce)
    ensures nonce == h(NonceBytes(h, s))
  {
  }

  /**
   Two replies quoted over one nonce state the same thing: metadata, policy,
   PIDs and the modules of every process. Otherwise SHA-256 collides on inputs
   the two replies name.
   */
  lemma OneNonceOneStatement(h: Hash, t: Token, s: Statement, u: Token, r: Statement, nonce: Bytes)
    requires IsHash(h) && States(h, t, s) && Verifies(h, t, nonce) && States(h, u, r) && Verifies(h, u, nonce)
    ensures s == r || Forged(h, s, r)
  {
    hide NonceBytes, ProtectBytes, ImagesCollide;
    StatedNonce(h, t, s, nonce);
    StatedNonce(h, u, r, nonce);
    if !Forged(h, s, r) {
      NonceBinds(h, s, r);
    }
  }

  /**
   A receiver who cuts a reply by its own size fields recovers the token with
   no byte left over; the SDK does so exactly when the reply fits its buffer.
   */
  lemma ReplyDecodes(t: Token, payload: Bytes)
    requires WellformedToken(t) && payload == Payload(t)
    ensures |payload| >= HEADER_SIZE && var d := ReadHeader(payload);
            && End(d) == |payload| && AcceptableHeader(d) && d.listSize == 4 * d.count && ReadToken(payload, d) == t
            && Parse(payload) == if |payload| <= SDK_BUFFER then Some(t) else None
  {
    hide ReadHeader, ReadToken, Payload;
    ParseInvertsPayload(t);
    PayloadSize(t);
    PayloadAt(payload, t);
    assert payload[..|payload|] == payload;
  }

  // ----- the handler

  /** The client's nonce, or zeros if it sent none. */
  function ClientNonce(request: Bytes): Digest {
    if |request| >= 32 then request[..32] else seq(32, _ => 0)
  }

  /** The token carries the challenge of the request: its first 32 bytes, or zeros if it sent none. */
  ghost predicate Answers(t: Token, request: Bytes) {
    if |request| >= 32 then t.meta.nonce == request[..32] else forall i :: 0 <= i < 32 ==> t.meta.nonce[i] == 0
  }

  lemma NonceAnswers(t: Token, request: Bytes)
    requires t.meta.nonce == ClientNonce(request)
    ensures |request| >= 32 ==> t.meta.nonce == request[..32]
    ensures |request| < 32 ==> forall i :: 0 <= i < 32 ==> t.meta.nonce[i] == 0
  {
  }

  /**
   A quote answers one challenge: two replies over one nonce were asked for
   with the same 32 bytes, or SHA-256 collides.
   */
  lemma OneNonceOneChallenge(h: Hash, t: Token, s: Statement, a: Bytes, u: Token, r: Statement, b: Bytes,
                             nonce: Bytes)
    requires IsHash(h) && States(h, t, s) && Verifies(h, t, nonce) && States(h, u, r) && Verifies(h, u, nonce)
    requires Answers(t, a) && Answers(u, b) && !Forged(h, s, r)
    ensures Answers(t, b) && Answers(u, a)
    ensures |a| >= 32 && |b| >= 32 ==> a[..32] == b[..32]
  {
    hide Verifies, Forged;
    OneNonceOneStatement(h, t, s, u, r, nonce);
  }

  /** The status allows a token and the UID has not used up its window. */
  ghost predicate Admitted(status: Status, limited: bool) {
    Bit(status.flags, STATUS_ATTESTED) && !Bit(status.flags, STATUS_TPM_LOCKOUT) && !limited
  }

  /** The list can be read and every process of it measured. */
  ghost predicate Prepared(policy: ProtectedPids.RuntimePolicy, noMemory: bool, maps: Maps, measure: Measure)
    reads policy
  {
    policy.digestSet && !(noMemory && policy.pids != []) && AllMeasured(policy.pids, maps, measure)
  }

  /** The payload of a token over n PIDs fits the agent's limit. */
  ghost predicate SizeOk(n: nat, q: Quote) {
    HEADER_SIZE + 36 * n + |q.attest| + |q.signature| <= MAX_PAYLOAD
  }

  /** A token that was never issued. */
  ghost function Blank(): Token {
    var zeros: Digest := ClientNonce([]);
    Token(Metadata(0, 0, 0, zeros, 0), zeros, zeros, 0, 0, 0, [], [], [], [])
  }

  method HandleGetToken(h: Hash, policy: ProtectedPids.RuntimePolicy, status: Status, limited: bool, request: Bytes,
                        noMemory: bool, maps: Maps, measure: Measure, hasTpm: bool, tpm: Tpm, lockedOut: bool)
    returns (reply: Reply, nonce: Bytes, ghost t: Token, ghost s: Statement)
    requires policy.Valid() && IsHash(h)
    modifies policy`tokens
    ensures policy.Valid()
    ensures policy.tokens == old(policy.tokens) + if reply.Issued? then [policy.Current()] else []
    ensures reply.Issued? ==>
      && WellformedToken(t) && reply.payload == Payload(t) && |reply.payload| <= MAX_PAYLOAD
      && t.pids == policy.pids && t.version == PROTECT_V2 && t.policy == policy.digest
      && t.meta == Metadata(status.validUntil, status.flags, status.pcrMask, ClientNonce(request), policy.epoch)
      && tpm(nonce) == Some(Quote(t.attest, t.signature, t.sigAlg, t.hashAlg, t.meta.pcrMask))
    // the challenge
    ensures reply.Issued? && |request| >= 32 ==> t.meta.nonce == request[..32]
    ensures reply.Issued? && |request| < 32 ==> forall i :: 0 <= i < 32 ==> t.meta.nonce[i] == 0
    ensures reply.Issued? ==> Verifies(h, t, nonce) && States(h, t, s)
    ensures reply.Issued? ==> AllMeasured(policy.pids, maps, measure)
                              && s.processes == Processes(policy.pids, maps, measure)
    // when a token is issued, and otherwise which error is returned
    ensures Admitted(status, limited) && Prepared(policy, noMemory, maps, measure) && hasTpm ==>
      Encodable(s) && nonce == h(NonceBytes(h, s))
    ensures reply.Issued? <==>
      && Admitted(status, limited) && Prepared(policy, noMemory, maps, measure) && hasTpm
      && tpm(nonce).Some? && SizeOk(|policy.pids|, tpm(nonce).value) && tpm(nonce).value.pcrMask == status.pcrMask
    ensures reply.Issued? ==> policy.digestSet && (noMemory ==> policy.pids == [])
    ensures reply == Error(NotAttested) <==> !Bit(status.flags, STATUS_ATTESTED)
    ensures reply == Error(RateLimited) <==>
      Bit(status.flags, STATUS_ATTESTED) && !Bit(status.flags, STATUS_TPM_LOCKOUT) && limited
    ensures reply == Error(TpmLockout) <==>
      || (Bit(status.flags, STATUS_ATTESTED) && Bit(status.flags, STATUS_TPM_LOCKOUT))
      || (Admitted(status, limited) && Prepared(policy, noMemory, maps, measure)
          && hasTpm && tpm(nonce).None? && lockedOut)
    ensures reply == Error(Internal) <==>
      && Admitted(status, limited)
      && (Prepared(policy, noMemory, maps, measure) ==>
            hasTpm && tpm(nonce).Some? && !SizeOk(|policy.pids|, tpm(nonce).value))
  {
    hide Measured, ImageOf, ImageInput, Increasing, Sort, Payload, Processes, Bit, ClientNonce;
    hide WellformedToken, Verifies, States, AllMeasured, Blank, ImageDigest, NonceBytes, Encodable, SizeOk;
    nonce, t := [], Blank();
    s := Statement(t.meta, t.policy, []);
    if !Bit(status.flags, STATUS_ATTESTED) {
      reply := Error(NotAttested);
      return;
    }
    if Bit(status.flags, STATUS_TPM_LOCKOUT) {
      reply := Error(TpmLockout);
      return;
    }
    if limited {
      reply := Error(RateLimited);
      return;
    }
    if !policy.digestSet {
      reply := Error(Internal);
      return;
    }
    policy.CurrentKept();
    var pids := ProtectedPids.CanonicalList(policy.pids, noMemory);
    if pids.Err? || (noMemory && |pids.value| > 0) {
      reply := Error(Internal);
      return;
    }
    var images := MeasureAll(h, pids.value, maps, measure);
    if images.Err? {
      reply := Error(Internal);
      return;
    }
    if !hasTpm {
      reply := Error(TpmFailure);
      return;
    }
    var meta := Metadata(status.validUntil, status.flags, status.pcrMask, ClientNonce(request), policy.epoch);
    s := Statement(meta, policy.digest, Processes(policy.pids, maps, measure));
    reply, nonce, t := Quoted(h, meta, policy.digest, pids.value, images.value, tpm, lockedOut);
    StatementNonce(h, s, pids.value, images.value, maps, measure);
    if reply.Issued? {
      policy.Issue();
      NonceAnswers(t, request);
      StatedBy(h, t, s, maps, measure);
    }
  }

  /** The statement over these processes has these PIDs and image digests. */
  lemma StatementParts(h: Hash, s: Statement, pids: seq<U32>, images: seq<Digest>, maps: Maps, measure: Measure)
    requires IsHash(h) && |images| == |pids| <= MAX_PIDS && AllMeasured(pids, maps, measure)
    requires forall i :: 0 <= i < |pids| ==> images[i] == ImageDigest(h, ImageOf(maps(pids[i]), measure))
    requires s.processes == Processes(pids, maps, measure)
    ensures Encodable(s) && Pids(s) == pids && Images(h, s) == images
  {
    hide Measured, ImageOf, ImageInput;
  }

  lemma StatementNonce(h: Hash, s: Statement, pids: seq<U32>, images: seq<Digest>, maps: Maps, measure: Measure)
    requires IsHash(h) && |images| == |pids| <= MAX_PIDS && AllMeasured(pids, maps, measure)
    requires forall i :: 0 <= i < |pids| ==> images[i] == ImageDigest(h, ImageOf(maps(pids[i]), measure))
    requires s.processes == Processes(pids, maps, measure)
    ensures Encodable(s) && NonceBytes(h, s) == NonceInput(s.meta, s.policy, h(ProtectInputV2(pids, images)))
  {
    hide Measured, ImageOf, ImageInput, NonceInput, ProtectInputV2, Processes, ImageDigest;
    StatementParts(h, s, pids, images, maps, measure);
  }

  lemma StatedBy(h: Hash, t: Token, s: Statement, maps: Maps, measure: Measure)
    requires IsHash(h) && |t.pids| <= MAX_PIDS && |t.images| == |t.pids| && AllMeasured(t.pids, maps, measure)
    requires forall i :: 0 <= i < |t.pids| ==> t.images[i] == ImageDigest(h, ImageOf(maps(t.pids[i]), measure))
    requires s == Statement(t.meta, t.policy, Processes(t.pids, maps, measure))
    ensures States(h, t, s)
  {
    hide Measured, ImageOf, ImageInput, Processes, ImageDigest;
    StatementParts(h, s, t.pids, t.images, maps, measure);
  }

  /** Hash, quote and write. */
  method Quoted(h: Hash, meta: Metadata, policyDigest: Digest, pids: seq<U32>, images: seq<Digest>,
                tpm: Tpm, lockedOut: bool)
    returns (reply: Reply, nonce: Bytes, ghost t: Token)
    requires IsHash(h) && |pids| == |images| <= MAX_PIDS && Increasing(pids)
    ensures nonce == h(NonceInput(meta, policyDigest, h(ProtectInputV2(pids, images))))
    ensures reply.Issued? ==>
      && WellformedToken(t) && reply.payload == Payload(t) && |reply.payload| <= MAX_PAYLOAD && Verifies(h, t, nonce)
      && t.pids == pids && t.images == images && t.version == PROTECT_V2 && t.policy == policyDigest && t.meta == meta
      && tpm(nonce) == Some(Quote(t.attest, t.signature, t.sigAlg, t.hashAlg, t.meta.pcrMask))
    ensures reply.Issued? <==>
      tpm(nonce).Some? && SizeOk(|pids|, tpm(nonce).value) && tpm(nonce).value.pcrMask == meta.pcrMask
    ensures reply == Error(TpmLockout) <==> tpm(nonce).None? && lockedOut
    ensures reply == Error(Internal) <==> tpm(nonce).Some? && !SizeOk(|pids|, tpm(nonce).value)
    ensures reply.Error? ==> reply.code in {TpmLockout, Internal, TpmFailure}
  {
    hide Increasing, Payload, ProtectInputV2, NonceInput;
    t := Blank();
    var protect := ComputeV2(h, pids, images);
    nonce := ComputeQuoteNonce(h, meta, policyDigest, protect.value);
    var quote := tpm(nonce);
    if quote.None? {
      reply := Error(if lockedOut then TpmLockout else TpmFailure);
      return;
    }
    var q := quote.value;
    var total := HEADER_SIZE + 4 * |pids| + 32 * |pids| + |q.attest| + |q.signature|;
    if total > MAX_PAYLOAD {
      reply := Error(Internal);
      return;
    }
    if q.pcrMask != meta.pcrMask {
      reply := Error(TpmFailure);
      return;
    }
    var token := Token(meta, policyDigest, protect.value, q.sigAlg, q.hashAlg, PROTECT_V2,
                       pids, images, q.attest, q.signature);
    t := token;
    var payload := WritePayload(token);
    PayloadSize(token);
    reply := Issued(payload);
  }
}
