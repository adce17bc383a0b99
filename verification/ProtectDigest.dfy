/**
 Hashing the protected-PID list (include/lota_runtime_protect_digest.h) and the
 token quote nonce (include/lota_token_quote_nonce.h), and what a nonce binds.
 */
module ProtectDigest {
  import opened ByteCodec
  import opened Canonical
  import opened DigestInputs
  import opened Errors
  import opened ImageMeasure

  // ----- the hash contexts

  method ValidatePids(pids: seq<U32>) returns (ok: bool)
    ensures ok <==> Increasing(pids)
  {
    if |pids| == 0 {
      return true;
    }
    hide Increasing;
    assert Increasing(pids[..1]) by { IncreasingOne(pids[0]); assert pids[..1] == [pids[0]]; }
    for i := 1 to |pids|
      invariant Increasing(pids[..i])
    {
      IncreasingNext(pids, i);
      if pids[i - 1] >= pids[i] {
        if Increasing(pids) { IncreasingPrefix(pids, i + 1); }
        return false;
      }
    }
    assert pids[..|pids|] == pids;
    return true;
  }

  lemma IncreasingOne(p: U32)
    ensures Increasing([p])
  {
  }

  /** Version 1: the count and the PIDs, refused unless strictly increasing. */
  method ComputeV1(h: Hash, pids: seq<U32>) returns (r: Result<Bytes>)
    requires |pids| < U32_RANGE
    ensures r.Ok? <==> Increasing(pids)
    ensures r.Ok? ==> r.value == h(ProtectInputV1(pids))
  {
    var ok := ValidatePids(pids);
    if !ok {
      return Err(EINVAL);
    }
    var ctx := PROTECT_V1_DOMAIN + Le32(|pids|);
    for i := 0 to |pids|
      invariant ctx + Words(pids[i..]) == ProtectInputV1(pids)
    {
      assert pids[i..][1..] == pids[i + 1..];
      Associative(ctx, Le32(pids[i]), Words(pids[i + 1..]));
      ctx := ctx + Le32(pids[i]);
    }
    assert ctx + [] == ctx;
    return Ok(h(ctx));
  }

  /** Version 2: each PID followed by the image digest of its process. */
  method ComputeV2(h: Hash, pids: seq<U32>, images: seq<Digest>) returns (r: Result<Bytes>)
    requires |pids| == |images| < U32_RANGE
    ensures r.Ok? <==> Increasing(pids)
    ensures r.Ok? ==> r.value == h(ProtectInputV2(pids, images))
  {
    var ok := ValidatePids(pids);
    if !ok {
      return Err(EINVAL);
    }
    var ctx := PROTECT_V2_DOMAIN + Le32(|pids|);
    for i := 0 to |pids|
      invariant ctx + PidImages(pids[i..], images[i..]) == ProtectInputV2(pids, images)
    {
      assert pids[i..][1..] == pids[i + 1..] && images[i..][1..] == images[i + 1..];
      var rest := PidImages(pids[i + 1..], images[i + 1..]);
      Associative(ctx, Le32(pids[i]) + images[i], rest);
      Associative(ctx, Le32(pids[i]), images[i]);
      ctx := ctx + Le32(pids[i]);
      ctx := ctx + images[i];
    }
    assert ctx + [] == ctx;
    return Ok(h(ctx));
  }

  /** The nonce passed to the TPM quote. */
  method ComputeQuoteNonce(h: Hash, m: Metadata, policy: Digest, protect: Digest) returns (nonce: Bytes)
    ensures nonce == h(NonceInput(m, policy, protect))
  {
    var prefix := Le64(m.validUntil);
    prefix := prefix + Le32(m.flags);
    prefix := prefix + Le32(m.pcrMask);
    var ctx := prefix;
    ctx := ctx + m.nonce;
    ctx := ctx + policy;
    ctx := ctx + protect;
    ctx := ctx + Le64(m.epoch);
    nonce := h(ctx);
  }

  // ----- what a nonce binds

  datatype Process = Process(pid: U32, modules: seq<Module>)

  /** Everything a token says about the machine. */
  datatype Statement = Statement(meta: Metadata, policy: Digest, processes: seq<Process>)

  ghost predicate Encodable(s: Statement) {
    && |s.processes| < U32_RANGE
    && forall i :: 0 <= i < |s.processes| ==> |s.processes[i].modules| <= MAX_MODULES
  }

  ghost function Pids(s: Statement): (r: seq<U32>)
    ensures |r| == |s.processes|
    ensures forall i :: 0 <= i < |r| ==> r[i] == s.processes[i].pid
  {
    seq(|s.processes|, i requires 0 <= i < |s.processes| => s.processes[i].pid)
  }

  ghost function ImageDigest(h: Hash, ms: seq<Module>): Digest
    requires IsHash(h) && |ms| <= MAX_MODULES
  {
    h(ImageInput(ms))
  }

  ghost function Images(h: Hash, s: Statement): (r: seq<Digest>)
    requires IsHash(h) && Encodable(s)
    ensures |r| == |s.processes|
    ensures forall i :: 0 <= i < |r| ==> r[i] == ImageDigest(h, s.processes[i].modules)
  {
    seq(|s.processes|, i requires 0 <= i < |s.processes| => ImageDigest(h, s.processes[i].modules))
  }

  ghost function ProtectBytes(h: Hash, s: Statement): Bytes
    requires IsHash(h) && Encodable(s)
  {
    ProtectInputV2(Pids(s), Images(h, s))
  }

  ghost function NonceBytes(h: Hash, s: Statement): Bytes
    requires IsHash(h) && Encodable(s)
  {
    NonceInput(s.meta, s.policy, h(ProtectBytes(h, s)))
  }

  ghost predicate ImagesCollide(h: Hash, a: Statement, b: Statement, i: nat)
    requires Encodable(a) && Encodable(b)
  {
    && i < |a.processes| && i < |b.processes|
    && Collides(h, ImageInput(a.processes[i].modules), ImageInput(b.processes[i].modules))
  }

  /** Two of the byte strings hashed for a and b, in the same place, collide. */
  ghost predicate Forged(h: Hash, a: Statement, b: Statement)
    requires IsHash(h) && Encodable(a) && Encodable(b)
  {
    || Collides(h, NonceBytes(h, a), NonceBytes(h, b))
    || Collides(h, ProtectBytes(h, a), ProtectBytes(h, b))
    || exists i :: ImagesCollide(h, a, b, i)
  }

  lemma SameProcesses(h: Hash, a: Statement, b: Statement)
    requires IsHash(h) && Encodable(a) && Encodable(b)
    requires Pids(a) == Pids(b) && Images(h, a) == Images(h, b)
    requires forall i :: !ImagesCollide(h, a, b, i)
    ensures a.processes == b.processes
  {
    hide ImageInput, Collides;
    assert |a.processes| == |Pids(a)| == |Pids(b)| == |b.processes|;
    forall i | 0 <= i < |a.processes| ensures a.processes[i] == b.processes[i] {
      var x, y := a.processes[i].modules, b.processes[i].modules;
      assert Images(h, a)[i] == Images(h, b)[i] && Pids(a)[i] == Pids(b)[i];
      assert !ImagesCollide(h, a, b, i);
      NoCollision(h, ImageInput(x), ImageInput(y));
      ImageInputInjective(x, y);
    }
  }

  lemma NoCollision(h: Hash, x: Bytes, y: Bytes)
    requires h(x) == h(y) && !Collides(h, x, y)
    ensures x == y
  {
  }

  /**
   A quote nonce binds the whole statement: two statements with one nonce are
   equal in metadata, policy, PID list and every process's modules, or a
   SHA-256 collision is at hand.
   */
  lemma NonceBinds(h: Hash, a: Statement, b: Statement)
    requires IsHash(h) && Encodable(a) && Encodable(b)
    requires h(NonceBytes(h, a)) == h(NonceBytes(h, b)) && !Forged(h, a, b)
    ensures a == b
  {
    hide NonceInput, ProtectInputV2, Pids, Images, ImagesCollide, Collides;
    NoCollision(h, NonceBytes(h, a), NonceBytes(h, b));
    NonceInputInjective(a.meta, a.policy, h(ProtectBytes(h, a)), b.meta, b.policy, h(ProtectBytes(h, b)));
    NoCollision(h, ProtectBytes(h, a), ProtectBytes(h, b));
    ProtectV2Injective(Pids(a), Images(h, a), Pids(b), Images(h, b));
    SameProcesses(h, a, b);
  }

  /**
   Down to the processes: the same nonce, so under the i-th PID the same
   (soname, digest) pairs by first names, and the same pairs altogether where
   every mapping is named first somewhere.
   */
  lemma NonceBindsMappings(h: Hash, a: Statement, la: seq<Line>, ma: Measure,
                           b: Statement, lb: seq<Line>, mb: Measure, i: nat)
    requires IsHash(h) && Encodable(a) && Encodable(b) && i < |a.processes| && i < |b.processes|
    requires Measured(la, ma) && a.processes[i].modules == ImageOf(la, ma)
    requires Measured(lb, mb) && b.processes[i].modules == ImageOf(lb, mb)
    requires h(NonceBytes(h, a)) == h(NonceBytes(h, b)) && !Forged(h, a, b)
    ensures FirstPairs(Entries(la), ma) == FirstPairs(Entries(lb), mb)
    ensures FirstNamed(Entries(la), ma) && FirstNamed(Entries(lb), mb) ==>
            Pairs(Entries(la), ma) == Pairs(Entries(lb), mb)
  {
    hide *;
    NonceBinds(h, a, b);
    ImageIsTheFirstPairs(la, ma, lb, mb);
    if FirstNamed(Entries(la), ma) && FirstNamed(Entries(lb), mb) {
      ImageIsThePairSet(la, ma, lb, mb);
    }
  }
}
