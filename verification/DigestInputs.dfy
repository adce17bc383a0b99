/**
 The byte strings the agent hashes: the per-process image digest
 (include/lota_runtime_image_measure.h), the protected-PID digest in its two
 versions (include/lota_runtime_protect_digest.h) and the token quote nonce
 (include/lota_token_quote_nonce.h).

 SHA-256 is any function to 32-byte strings. Nothing is assumed of it: where
 equal digests should mean equal inputs, the alternative is a collision, and
 the statement names the two inputs that collide.
 */
module DigestInputs {
  import opened ByteCodec
  import opened Canonical

  type Hash = Bytes -> Bytes

  ghost predicate IsHash(h: Hash) {
    forall x :: |h(x)| == 32
  }

  ghost predicate Collides(h: Hash, x: Bytes, y: Bytes) {
    x != y && h(x) == h(y)
  }

  // ----- length-prefixed fields and lists

  type Field = f: Bytes | |f| < U32_RANGE witness []

  function Block(f: Field): (b: Bytes)
    ensures |b| == 4 + |f|
  {
    Le32(|f|) + f
  }

  lemma BlockSplit(a: Field, x: Bytes, b: Field, y: Bytes)
    requires Block(a) + x == Block(b) + y
    ensures a == b && x == y
  {
    Associative(Le32(|a|), a, x);
    Associative(Le32(|b|), b, y);
    SplitEqual(Le32(|a|), a + x, Le32(|b|), b + y);
    Le32Injective(|a|, |b|);
    SplitEqual(a, x, b, y);
  }

  /** A list of 32-bit words, without its count. */
  function Words(ws: seq<U32>): Bytes {
    if ws == [] then [] else Le32(ws[0]) + Words(ws[1..])
  }

  lemma {:induction false} WordsSplit(a: seq<U32>, x: Bytes, b: seq<U32>, y: Bytes)
    requires |a| == |b| && Words(a) + x == Words(b) + y
    ensures a == b && x == y
  {
    if a == [] {
      assert Words(a) + x == x && Words(b) + y == y;
    } else {
      Associative(Le32(a[0]), Words(a[1..]), x);
      Associative(Le32(b[0]), Words(b[1..]), y);
      SplitEqual(Le32(a[0]), Words(a[1..]) + x, Le32(b[0]), Words(b[1..]) + y);
      Le32Injective(a[0], b[0]);
      WordsSplit(a[1..], x, b[1..], y);
      assert a == [a[0]] + a[1..] && b == [b[0]] + b[1..];
    }
  }

  /** A list of length-prefixed fields, without its count. */
  function Blocks(fs: seq<Field>): Bytes {
    if fs == [] then [] else Block(fs[0]) + Blocks(fs[1..])
  }

  lemma {:induction false} BlocksSplit(a: seq<Field>, x: Bytes, b: seq<Field>, y: Bytes)
    requires |a| == |b| && Blocks(a) + x == Blocks(b) + y
    ensures a == b && x == y
  {
    if a == [] {
      assert Blocks(a) + x == x && Blocks(b) + y == y;
    } else {
      Associative(Block(a[0]), Blocks(a[1..]), x);
      Associative(Block(b[0]), Blocks(b[1..]), y);
      BlockSplit(a[0], Blocks(a[1..]) + x, b[0], Blocks(b[1..]) + y);
      BlocksSplit(a[1..], x, b[1..], y);
      assert a == [a[0]] + a[1..] && b == [b[0]] + b[1..];
    }
  }

  // ----- the image digest

  const SONAME_MAX := 256
  const MAX_MODULES := 256
  const VERITY_SIZE := 64

  /** A C string: no NUL inside, and it fits its buffer with one. */
  type Soname = s: Bytes | |s| < SONAME_MAX && forall i :: 0 <= i < |s| ==> s[i] != 0 witness []

  type Verity = v: Bytes | |v| <= VERITY_SIZE witness []

  /** One measured object: its file name and its fs-verity digest. */
  datatype Module = Module(soname: Soname, verity: Verity)

  /** The bytes compared by lota__runtime_image_module_cmp, in comparison order. */
  function SortKey(m: Module): seq<int> {
    m.soname + [0] + [|m.verity|] + m.verity
  }

  predicate LeModule(a: Module, b: Module) {
    LeLex(SortKey(a), SortKey(b))
  }

  function ModuleFields(m: Module): Bytes {
    Block(m.soname) + Block(m.verity)
  }

  function ModulesBytes(ms: seq<Module>): Bytes {
    if ms == [] then [] else ModuleFields(ms[0]) + ModulesBytes(ms[1..])
  }

  const IMAGE_DOMAIN: Bytes := Ascii("lota-runtime-image-measure:v1") + [0]

  function ImageInput(ms: seq<Module>): Bytes
    requires |ms| < U32_RANGE
  {
    IMAGE_DOMAIN + Le32(|ms|) + ModulesBytes(ms)
  }

  lemma ModuleSplit(a: Module, x: Bytes, b: Module, y: Bytes)
    requires ModuleFields(a) + x == ModuleFields(b) + y
    ensures a == b && x == y
  {
    Associative(Block(a.soname), Block(a.verity), x);
    Associative(Block(b.soname), Block(b.verity), y);
    BlockSplit(a.soname, Block(a.verity) + x, b.soname, Block(b.verity) + y);
    BlockSplit(a.verity, x, b.verity, y);
  }

  lemma {:induction false} ModulesSplit(a: seq<Module>, x: Bytes, b: seq<Module>, y: Bytes)
    requires |a| == |b| && ModulesBytes(a) + x == ModulesBytes(b) + y
    ensures a == b && x == y
  {
    if a == [] {
      assert ModulesBytes(a) + x == x && ModulesBytes(b) + y == y;
    } else {
      Associative(ModuleFields(a[0]), ModulesBytes(a[1..]), x);
      Associative(ModuleFields(b[0]), ModulesBytes(b[1..]), y);
      ModuleSplit(a[0], ModulesBytes(a[1..]) + x, b[0], ModulesBytes(b[1..]) + y);
      ModulesSplit(a[1..], x, b[1..], y);
      assert a == [a[0]] + a[1..] && b == [b[0]] + b[1..];
    }
  }

  /** Different module lists are hashed from different bytes. */
  lemma ImageInputInjective(a: seq<Module>, b: seq<Module>)
    requires |a| < U32_RANGE && |b| < U32_RANGE
    requires ImageInput(a) == ImageInput(b)
    ensures a == b
  {
    Associative(IMAGE_DOMAIN, Le32(|a|), ModulesBytes(a));
    Associative(IMAGE_DOMAIN, Le32(|b|), ModulesBytes(b));
    SplitEqual(IMAGE_DOMAIN, Le32(|a|) + ModulesBytes(a), IMAGE_DOMAIN, Le32(|b|) + ModulesBytes(b));
    SplitEqual(Le32(|a|), ModulesBytes(a), Le32(|b|), ModulesBytes(b));
    Le32Injective(|a|, |b|);
    assert ModulesBytes(a) + [] == ModulesBytes(b) + [];
    ModulesSplit(a, [], b, []);
  }

  // ----- the protected-PID digest

  type Digest = d: Bytes | |d| == 32 witness seq(32, _ => 0)

  const PROTECT_V1_DOMAIN: Bytes := Ascii("lota-runtime-protect-pids:v1") + [0]
  const PROTECT_V2_DOMAIN: Bytes := Ascii("lota-runtime-protect-pids:v2") + [0]

  function ProtectInputV1(pids: seq<U32>): Bytes
    requires |pids| < U32_RANGE
  {
    PROTECT_V1_DOMAIN + Le32(|pids|) + Words(pids)
  }

  /** Each PID followed by its process's image digest. */
  function PidImages(pids: seq<U32>, images: seq<Digest>): Bytes
    requires |pids| == |images|
  {
    if pids == [] then [] else Le32(pids[0]) + images[0] + PidImages(pids[1..], images[1..])
  }

  function ProtectInputV2(pids: seq<U32>, images: seq<Digest>): Bytes
    requires |pids| == |images| < U32_RANGE
  {
    PROTECT_V2_DOMAIN + Le32(|pids|) + PidImages(pids, images)
  }

  lemma {:induction false} PidImagesInjective(a: seq<U32>, ia: seq<Digest>, b: seq<U32>, ib: seq<Digest>)
    requires |a| == |ia| == |b| == |ib|
    requires PidImages(a, ia) == PidImages(b, ib)
    ensures a == b && ia == ib
  {
    if a == [] {
    } else {
      var x, y := PidImages(a[1..], ia[1..]), PidImages(b[1..], ib[1..]);
      Associative(Le32(a[0]), ia[0], x);
      Associative(Le32(b[0]), ib[0], y);
      SplitEqual(Le32(a[0]), ia[0] + x, Le32(b[0]), ib[0] + y);
      SplitEqual(ia[0], x, ib[0], y);
      Le32Injective(a[0], b[0]);
      PidImagesInjective(a[1..], ia[1..], b[1..], ib[1..]);
      assert a == [a[0]] + a[1..] && b == [b[0]] + b[1..];
      assert ia == [ia[0]] + ia[1..] && ib == [ib[0]] + ib[1..];
    }
  }

  lemma ProtectV2Injective(a: seq<U32>, ia: seq<Digest>, b: seq<U32>, ib: seq<Digest>)
    requires |a| == |ia| < U32_RANGE && |b| == |ib| < U32_RANGE
    requires ProtectInputV2(a, ia) == ProtectInputV2(b, ib)
    ensures a == b && ia == ib
  {
    Associative(PROTECT_V2_DOMAIN, Le32(|a|), PidImages(a, ia));
    Associative(PROTECT_V2_DOMAIN, Le32(|b|), PidImages(b, ib));
    SplitEqual(PROTECT_V2_DOMAIN, Le32(|a|) + PidImages(a, ia), PROTECT_V2_DOMAIN, Le32(|b|) + PidImages(b, ib));
    SplitEqual(Le32(|a|), PidImages(a, ia), Le32(|b|), PidImages(b, ib));
    Le32Injective(|a|, |b|);
    PidImagesInjective(a, ia, b, ib);
  }

  lemma ProtectV1Injective(a: seq<U32>, b: seq<U32>)
    requires |a| < U32_RANGE && |b| < U32_RANGE
    requires ProtectInputV1(a) == ProtectInputV1(b)
    ensures a == b
  {
    Associative(PROTECT_V1_DOMAIN, Le32(|a|), Words(a));
    Associative(PROTECT_V1_DOMAIN, Le32(|b|), Words(b));
    SplitEqual(PROTECT_V1_DOMAIN, Le32(|a|) + Words(a), PROTECT_V1_DOMAIN, Le32(|b|) + Words(b));
    SplitEqual(Le32(|a|), Words(a), Le32(|b|), Words(b));
    Le32Injective(|a|, |b|);
    assert Words(a) + [] == Words(b) + [];
    WordsSplit(a, [], b, []);
  }

  /** No version 1 input is a version 2 input. */
  lemma VersionsNeverCoincide(a: seq<U32>, b: seq<U32>, ib: seq<Digest>)
    requires |a| < U32_RANGE && |b| == |ib| < U32_RANGE
    ensures ProtectInputV1(a) != ProtectInputV2(b, ib)
  {
    assert ProtectInputV1(a)[27] == '1' as int;
    assert ProtectInputV2(b, ib)[27] == '2' as int;
  }

  // ----- the token quote nonce

  datatype Metadata = Metadata(validUntil: U64, flags: U32, pcrMask: U32, nonce: Digest, epoch: U64)

  function NonceInput(m: Metadata, policy: Digest, protect: Digest): (r: Bytes)
    ensures |r| == 120
  {
    (Le64(m.validUntil) + Le32(m.flags) + Le32(m.pcrMask)) + m.nonce + policy + protect + Le64(m.epoch)
  }

  lemma NonceInputInjective(a: Metadata, pa: Digest, ra: Digest, b: Metadata, pb: Digest, rb: Digest)
    requires NonceInput(a, pa, ra) == NonceInput(b, pb, rb)
    ensures a == b && pa == pb && ra == rb
  {
    var ha := Le64(a.validUntil) + Le32(a.flags) + Le32(a.pcrMask);
    var hb := Le64(b.validUntil) + Le32(b.flags) + Le32(b.pcrMask);
    SplitEqual(ha + a.nonce + pa + ra, Le64(a.epoch), hb + b.nonce + pb + rb, Le64(b.epoch));
    SplitEqual(ha + a.nonce + pa, ra, hb + b.nonce + pb, rb);
    SplitEqual(ha + a.nonce, pa, hb + b.nonce, pb);
    SplitEqual(ha, a.nonce, hb, b.nonce);
    SplitEqual(Le64(a.validUntil) + Le32(a.flags), Le32(a.pcrMask),
               Le64(b.validUntil) + Le32(b.flags), Le32(b.pcrMask));
    SplitEqual(Le64(a.validUntil), Le32(a.flags), Le64(b.validUntil), Le32(b.flags));
    Le64Injective(a.validUntil, b.validUntil);
    Le64Injective(a.epoch, b.epoch);
    Le32Injective(a.flags, b.flags);
    Le32Injective(a.pcrMask, b.pcrMask);
  }
}
