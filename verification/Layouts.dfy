/**
 The hashed byte strings field by field (include/lota_runtime_image_measure.h,
 include/lota_runtime_protect_digest.h, include/lota_token_quote_nonce.h and
 compute_policy_digest in src/agent/startup_policy.c): which value stands at
 which offset. A verifier that recomputes a digest in another language has to
 agree with these.
 */
module Layouts {
  import opened BitWords
  import opened ByteCodec
  import opened Canonical
  import opened DigestInputs
  import opened PolicyDigest

  // ----- places in a byte string

  ghost predicate At(p: Bytes, at: nat, b: Bytes) {
    at + |b| <= |p| && p[at..at + |b|] == b
  }

  /** The text, byte for byte. */
  ghost predicate TextAt(p: Bytes, at: nat, text: string) {
    at + |text| <= |p| && forall i :: 0 <= i < |text| ==> p[at + i] == text[i] as int
  }

  lemma AtJoin(a: Bytes, b: Bytes)
    ensures At(a + b, 0, a) && At(a + b, |a|, b)
  {
  }

  lemma AtLeft(a: Bytes, c: Bytes, at: nat, b: Bytes)
    requires At(a, at, b)
    ensures At(a + c, at, b)
  {
    assert (a + c)[at..at + |b|] == a[at..at + |b|];
  }

  lemma AtRight(a: Bytes, c: Bytes, at: nat, b: Bytes)
    requires At(c, at, b)
    ensures At(a + c, |a| + at, b)
  {
    assert (a + c)[|a| + at..|a| + at + |b|] == c[at..at + |b|];
  }

  /** A place within a place. */
  lemma AtWithin(p: Bytes, at: nat, c: Bytes, off: nat, b: Bytes)
    requires At(p, at, c) && At(c, off, b)
    ensures At(p, at + off, b)
  {
    forall i | 0 <= i < |b| ensures p[at + off + i] == b[i] {
      assert p[at..at + |c|][off + i] == c[off..off + |b|][i];
    }
  }

  lemma WordAt(p: Bytes, at: nat, v: U32)
    requires At(p, at, Le32(v))
    ensures at + 4 <= |p| && ReadLe32(p, at) == v
  {
    Le32RoundTrip(p, at, v);
  }

  // ----- lists

  lemma {:induction false} WordsPlaces(ws: seq<U32>, i: nat)
    ensures |Words(ws)| == 4 * |ws|
    ensures i < |ws| ==> At(Words(ws), 4 * i, Le32(ws[i]))
  {
    hide Le32;
    if ws == [] {
    } else {
      var rest := Words(ws[1..]);
      AtJoin(Le32(ws[0]), rest);
      WordsPlaces(ws[1..], if i == 0 then 0 else i - 1);
      if 0 < i < |ws| { AtRight(Le32(ws[0]), rest, 4 * (i - 1), Le32(ws[i])); }
    }
  }

  /** Where the i-th length-prefixed field starts. */
  ghost function Offset(fs: seq<Field>, i: nat): nat
    requires i <= |fs|
  {
    if i == 0 then 0 else 4 + |fs[0]| + Offset(fs[1..], i - 1)
  }

  /** A field at its place: its length, then its bytes. */
  ghost predicate BlockAt(p: Bytes, at: nat, f: Field) {
    at + 4 + |f| <= |p| && ReadLe32(p, at) == |f| && p[at + 4..at + 4 + |f|] == f
  }

  lemma BlockPlace(p: Bytes, at: nat, f: Field)
    requires At(p, at, Block(f))
    ensures BlockAt(p, at, f)
  {
    hide Le32, ReadLe32;
    AtJoin(Le32(|f|), f);
    AtWithin(p, at, Block(f), 0, Le32(|f|));
    AtWithin(p, at, Block(f), 4, f);
    WordAt(p, at, |f|);
  }

  lemma {:induction false} BlocksPlaces(fs: seq<Field>, i: nat)
    ensures |Blocks(fs)| == Offset(fs, |fs|)
    ensures i < |fs| ==> At(Blocks(fs), Offset(fs, i), Block(fs[i]))
  {
    hide Block;
    if fs == [] {
    } else {
      var rest := Blocks(fs[1..]);
      AtJoin(Block(fs[0]), rest);
      BlocksPlaces(fs[1..], if i == 0 then 0 else i - 1);
      if 0 < i < |fs| { AtRight(Block(fs[0]), rest, Offset(fs[1..], i - 1), Block(fs[i])); }
    }
  }

  lemma {:induction false} PidImagesPlaces(pids: seq<U32>, images: seq<Digest>, i: nat)
    requires |pids| == |images|
    ensures |PidImages(pids, images)| == 36 * |pids|
    ensures i < |pids| ==> At(PidImages(pids, images), 36 * i, Le32(pids[i]) + images[i])
  {
    hide Le32;
    if pids == [] {
    } else {
      var first, rest := Le32(pids[0]) + images[0], PidImages(pids[1..], images[1..]);
      AtJoin(first, rest);
      PidImagesPlaces(pids[1..], images[1..], if i == 0 then 0 else i - 1);
      if 0 < i < |pids| { AtRight(first, rest, 36 * (i - 1), Le32(pids[i]) + images[i]); }
    }
  }

  /** Soname and digest of each module in turn. */
  ghost function ModuleBlocks(ms: seq<Module>): (fs: seq<Field>)
    ensures |fs| == 2 * |ms|
    ensures forall i :: 0 <= i < |ms| ==> fs[2 * i] == ms[i].soname && fs[2 * i + 1] == ms[i].verity
  {
    if ms == [] then [] else [ms[0].soname, ms[0].verity] + ModuleBlocks(ms[1..])
  }

  lemma {:induction false} ModulesAreBlocks(ms: seq<Module>)
    ensures ModulesBytes(ms) == Blocks(ModuleBlocks(ms))
  {
    if ms == [] {
    } else {
      ModulesAreBlocks(ms[1..]);
      TwoBlocks(ms[0].soname, ms[0].verity, ModuleBlocks(ms[1..]));
    }
  }

  lemma TwoBlocks(a: Field, b: Field, fs: seq<Field>)
    ensures Blocks([a, b] + fs) == Block(a) + Block(b) + Blocks(fs)
  {
    hide Block;
    var all := [a, b] + fs;
    assert all[1..] == [b] + fs && all[1..][1..] == fs;
    Associative(Block(a), Block(b), Blocks(fs));
  }

  lemma BlockWithin(p: Bytes, at: nat, fs: seq<Field>, i: nat)
    requires At(p, at, Blocks(fs)) && i < |fs|
    ensures BlockAt(p, at + Offset(fs, i), fs[i])
  {
    hide Blocks, Block, Offset, At, BlockAt;
    BlocksPlaces(fs, i);
    AtWithin(p, at, Blocks(fs), Offset(fs, i), Block(fs[i]));
    BlockPlace(p, at + Offset(fs, i), fs[i]);
  }

  lemma WordWithin(p: Bytes, at: nat, ws: seq<U32>, i: nat)
    requires At(p, at, Words(ws)) && i < |ws|
    ensures at + 4 * i + 4 <= |p| && ReadLe32(p, at + 4 * i) == ws[i]
  {
    hide Words, Le32, At, ReadLe32;
    WordsPlaces(ws, i);
    AtWithin(p, at, Words(ws), 4 * i, Le32(ws[i]));
    WordAt(p, at + 4 * i, ws[i]);
  }

  // ----- a domain, a count, a list

  lemma Counted3(domain: Bytes, n: U32, list: Bytes)
    ensures var p := domain + Le32(n) + list;
            && At(p, 0, domain) && |domain| + 4 <= |p| && ReadLe32(p, |domain|) == n && At(p, |domain| + 4, list)
  {
    hide Le32, ReadLe32;
    AtJoin(domain, Le32(n));
    AtLeft(domain + Le32(n), list, 0, domain);
    AtLeft(domain + Le32(n), list, |domain|, Le32(n));
    AtJoin(domain + Le32(n), list);
    WordAt(domain + Le32(n) + list, |domain|, n);
  }

  /** A string that starts with a domain starts with its text and its NUL. */
  lemma TextWithin(p: Bytes, domain: Bytes, text: string)
    requires At(p, 0, domain) && |domain| == |text| + 1 && TextAt(domain, 0, text) && domain[|text|] == 0
    ensures TextAt(p, 0, text) && p[|text|] == 0
  {
    assert forall i :: 0 <= i < |domain| ==> p[i] == p[0..|domain|][i];
  }

  lemma DomainText(text: string)
    requires forall i :: 0 <= i < |text| ==> text[i] <= '~'
    ensures TextAt(Ascii(text) + [0], 0, text) && (Ascii(text) + [0])[|text|] == 0
  {
  }

  lemma ImageDomain()
    ensures |IMAGE_DOMAIN| == 30 && TextAt(IMAGE_DOMAIN, 0, "lota-runtime-image-measure:v1") && IMAGE_DOMAIN[29] == 0
  {
    hide TextAt, Ascii;
    DomainText("lota-runtime-image-measure:v1");
  }

  /** The image digest hashes its domain, the number of modules, then each module's soname and digest with lengths. */
  lemma ImageLayout(ms: seq<Module>, i: nat)
    requires |ms| < U32_RANGE
    ensures var p, fs := ImageInput(ms), ModuleBlocks(ms);
            && |p| == 34 + Offset(fs, |fs|) && TextAt(p, 0, "lota-runtime-image-measure:v1") && p[29] == 0
            && ReadLe32(p, 30) == |ms|
            && (i < |ms| ==> BlockAt(p, 34 + Offset(fs, 2 * i), ms[i].soname)
                             && BlockAt(p, 34 + Offset(fs, 2 * i + 1), ms[i].verity))
  {
    hide ModulesBytes, Blocks, Le32, ReadLe32, Offset, TextAt, At, BlockAt, ModuleBlocks;
    var p, fs := ImageInput(ms), ModuleBlocks(ms);
    Counted3(IMAGE_DOMAIN, |ms|, ModulesBytes(ms));
    ImageDomain();
    TextWithin(p, IMAGE_DOMAIN, "lota-runtime-image-measure:v1");
    ModulesAreBlocks(ms);
    BlocksPlaces(fs, 0);
    if i < |ms| {
      BlockWithin(p, 34, fs, 2 * i);
      BlockWithin(p, 34, fs, 2 * i + 1);
    }
  }

  lemma ProtectV1Domain()
    ensures |PROTECT_V1_DOMAIN| == 29 && TextAt(PROTECT_V1_DOMAIN, 0, "lota-runtime-protect-pids:v1")
    ensures PROTECT_V1_DOMAIN[28] == 0
  {
    hide TextAt, Ascii;
    DomainText("lota-runtime-protect-pids:v1");
  }

  lemma ProtectV2Domain()
    ensures |PROTECT_V2_DOMAIN| == 29 && TextAt(PROTECT_V2_DOMAIN, 0, "lota-runtime-protect-pids:v2")
    ensures PROTECT_V2_DOMAIN[28] == 0
  {
    hide TextAt, Ascii;
    DomainText("lota-runtime-protect-pids:v2");
  }

  /** Version 1 hashes its domain, the number of PIDs and the PIDs. */
  lemma ProtectV1Layout(pids: seq<U32>, i: nat)
    requires |pids| < U32_RANGE
    ensures var p := ProtectInputV1(pids);
            && |p| == 33 + 4 * |pids| && TextAt(p, 0, "lota-runtime-protect-pids:v1") && p[28] == 0
            && ReadLe32(p, 29) == |pids| && (i < |pids| ==> ReadLe32(p, 33 + 4 * i) == pids[i])
  {
    hide Words, Le32, ReadLe32, TextAt;
    var p := ProtectInputV1(pids);
    Counted3(PROTECT_V1_DOMAIN, |pids|, Words(pids));
    ProtectV1Domain();
    TextWithin(p, PROTECT_V1_DOMAIN, "lota-runtime-protect-pids:v1");
    WordsPlaces(pids, 0);
    if i < |pids| { WordWithin(p, 33, pids, i); }
  }

  /** Version 2 follows each PID with the image digest of its process. */
  lemma ProtectV2Layout(pids: seq<U32>, images: seq<Digest>, i: nat)
    requires |pids| == |images| < U32_RANGE
    ensures var p := ProtectInputV2(pids, images);
            && |p| == 33 + 36 * |pids| && TextAt(p, 0, "lota-runtime-protect-pids:v2") && p[28] == 0
            && ReadLe32(p, 29) == |pids|
            && (i < |pids| ==> ReadLe32(p, 33 + 36 * i) == pids[i] && p[37 + 36 * i..69 + 36 * i] == images[i])
  {
    hide PidImages, Le32, ReadLe32, TextAt;
    var p := ProtectInputV2(pids, images);
    Counted3(PROTECT_V2_DOMAIN, |pids|, PidImages(pids, images));
    ProtectV2Domain();
    TextWithin(p, PROTECT_V2_DOMAIN, "lota-runtime-protect-pids:v2");
    PidImagesPlaces(pids, images, i);
    if i < |pids| {
      var pair := Le32(pids[i]) + images[i];
      AtWithin(p, 33, PidImages(pids, images), 36 * i, pair);
      AtJoin(Le32(pids[i]), images[i]);
      AtWithin(p, 33 + 36 * i, pair, 0, Le32(pids[i]));
      AtWithin(p, 33 + 36 * i, pair, 4, images[i]);
      WordAt(p, 33 + 36 * i, pids[i]);
    }
  }

  /** The quote nonce hashes the metadata, the client's nonce, both digests and the epoch. */
  lemma NonceLayout(m: Metadata, policy: Digest, protect: Digest)
    ensures var p := NonceInput(m, policy, protect);
            && ReadLe64(p, 0) == m.validUntil && ReadLe32(p, 8) == m.flags && ReadLe32(p, 12) == m.pcrMask
            && p[16..48] == m.nonce && p[48..80] == policy && p[80..112] == protect && ReadLe64(p, 112) == m.epoch
  {
    hide Le32, Le64, ReadLe32, ReadLe64;
    var p := NonceInput(m, policy, protect);
    assert p[0..8] == Le64(m.validUntil) && p[8..12] == Le32(m.flags) && p[12..16] == Le32(m.pcrMask);
    assert p[112..120] == Le64(m.epoch);
    Le64RoundTrip(p, 0, m.validUntil);
    Le32RoundTrip(p, 8, m.flags);
    Le32RoundTrip(p, 12, m.pcrMask);
    Le64RoundTrip(p, 112, m.epoch);
  }

  // ----- the policy digest

  /** Bits 0 to 4 are the flags, bit 5 is always set, and there are no others. */
  lemma FlagBits(f: Flags, k: nat)
    ensures Bit(FlagWord(f), k) <==>
            match k
            case 0 => f.strictMmap
            case 1 => f.strictExec
            case 2 => f.blockPtrace
            case 3 => f.strictModules
            case 4 => f.blockAnonExec
            case _ => k == 5
  {
    hide Bit;
    var w := FlagWord(f);
    var w1, w2, w3 := w / 2, w / 4, w / 8;
    var w4, w5, w6 := w / 16, w / 32, w / 64;
    assert w6 == 0 && w5 == 1;
    Halve(w, k);
    if k > 0 { Halve(w1, k - 1); }
    if k > 1 { Halve(w2, k - 2); }
    if k > 2 { Halve(w3, k - 3); }
    if k > 3 { Halve(w4, k - 4); }
    if k > 4 { Halve(w5, k - 5); }
    if k > 5 { ZeroBit(k - 6); }
  }

  lemma Halve(a: nat, k: nat)
    ensures Bit(a, k) <==> if k == 0 then a % 2 == 1 else Bit(a / 2, k - 1)
  {
  }

  lemma PreambleLayout(c: Policy)
    ensures var p := Preamble(c);
            && TextAt(p, 0, "LOTA_POLICY_V1") && ReadLe32(p, 14) == c.mode && ReadLe32(p, 18) == FlagWord(c.flags)
  {
    hide Le32, ReadLe32, FlagWord;
    var p := Preamble(c);
    assert p[14..18] == Le32(c.mode) && p[18..22] == Le32(FlagWord(c.flags));
    Le32RoundTrip(p, 14, c.mode);
    Le32RoundTrip(p, 18, FlagWord(c.flags));
  }

  /** The bytes of a path are its characters. */
  lemma PathText(p: Path)
    ensures TextAt(PathBytes(p), 0, p)
  {
  }

  /** The listing of the library set is strictly increasing in strcmp order. */
  lemma LibsInOrder(libs: seq<Path>, i: nat, j: nat)
    requires i < j < |LibSet(libs)|
    ensures LeLex(PathBytes(LibSet(libs)[i]), PathBytes(LibSet(libs)[j])) && LibSet(libs)[i] != LibSet(libs)[j]
  {
    hide LeLex, PathBytes, Canon;
    PathOrder();
    CanonIsCanonical(libs, LePath);
    StrictPairs(LibSet(libs), LePath, i, j);
  }

  /** The four parts of the policy input, each at its offset. */
  lemma PolicyParts(c: Policy)
    requires Hashable(c)
    ensures var p, fs, ws, ls := PolicyInput(c), c.digests, PidSet(c.pids), LibFields(LibSet(c.libs));
            var a := 26 + Offset(fs, |fs|);
            var b := a + 4 + 4 * |ws|;
            && At(p, 0, Preamble(c)) && b + 4 <= |p|
            && ReadLe32(p, 22) == |fs| && At(p, 26, Blocks(fs))
            && ReadLe32(p, a) == |ws| && At(p, a + 4, Words(ws))
            && ReadLe32(p, b) == |ls| && At(p, b + 4, Blocks(ls)) && |p| == b + 4 + Offset(ls, |ls|)
  {
    hide Le32, ReadLe32, Blocks, Words, Preamble, PidSet, LibSet, LibFields, Offset, At;
    var fs, ws, ls := c.digests, PidSet(c.pids), LibFields(LibSet(c.libs));
    BlocksPlaces(fs, 0);
    WordsPlaces(ws, 0);
    BlocksPlaces(ls, 0);
    var x, y, z := Preamble(c) + Counted(fs), CountedWords(ws), Counted(ls);
    var p := x + y + z;
    assert p == PolicyInput(c);
    AtJoin(Preamble(c), Counted(fs));
    AtLeft(x, y, 0, Preamble(c));
    AtLeft(x + y, z, 0, Preamble(c));
    AtLeft(x, y, 22, Counted(fs));
    AtLeft(x + y, z, 22, Counted(fs));
    AtJoin(x, y);
    AtLeft(x + y, z, |x|, y);
    AtJoin(x + y, z);
    CountAt(p, 22, |fs|, Blocks(fs));
    CountAt(p, |x|, |ws|, Words(ws));
    CountAt(p, |x + y|, |ls|, Blocks(ls));
  }

  lemma CountAt(p: Bytes, at: nat, n: U32, list: Bytes)
    requires At(p, at, Le32(n) + list)
    ensures at + 4 <= |p| && ReadLe32(p, at) == n && At(p, at + 4, list)
  {
    hide Le32, ReadLe32;
    AtJoin(Le32(n), list);
    AtWithin(p, at, Le32(n) + list, 0, Le32(n));
    AtWithin(p, at, Le32(n) + list, 4, list);
    WordAt(p, at, n);
  }

  /**
   The policy digest hashes its domain, the mode, the flag word, the allowlist
   digests with their lengths, the PID set and the library set with lengths,
   each list behind its count.
   */
  lemma PolicyLayout(c: Policy, i: nat, j: nat, k: nat)
    requires Hashable(c)
    ensures var p, pids, libs := PolicyInput(c), PidSet(c.pids), LibSet(c.libs);
            var a := 26 + Offset(c.digests, |c.digests|);
            var b := a + 4 + 4 * |pids|;
            && b + 4 <= |p| && TextAt(p, 0, "LOTA_POLICY_V1")
            && ReadLe32(p, 14) == c.mode && ReadLe32(p, 18) == FlagWord(c.flags)
            && ReadLe32(p, 22) == |c.digests|
            && (i < |c.digests| ==> BlockAt(p, 26 + Offset(c.digests, i), c.digests[i]))
            && ReadLe32(p, a) == |pids| && (j < |pids| ==> ReadLe32(p, a + 4 + 4 * j) == pids[j])
            && ReadLe32(p, b) == |libs|
            && (k < |libs| ==> BlockAt(p, b + 4 + Offset(LibFields(libs), k), PathBytes(libs[k])))
  {
    hide ReadLe32, Blocks, Words, Preamble, PolicyInput, PidSet, LibSet, PathBytes, Offset, FlagWord, TextAt;
    hide At, BlockAt;
    var p, pids, libs := PolicyInput(c), PidSet(c.pids), LibSet(c.libs);
    var a := 26 + Offset(c.digests, |c.digests|);
    var b := a + 4 + 4 * |pids|;
    PolicyParts(c);
    PreambleLayout(c);
    HeadReads(p, Preamble(c));
    if i < |c.digests| { BlockWithin(p, 26, c.digests, i); }
    if j < |pids| { WordWithin(p, a + 4, pids, j); }
    if k < |libs| { BlockWithin(p, b + 4, LibFields(libs), k); }
  }

  lemma HeadReads(p: Bytes, head: Bytes)
    requires At(p, 0, head) && |head| == 22
    ensures ReadLe32(p, 14) == ReadLe32(head, 14) && ReadLe32(p, 18) == ReadLe32(head, 18)
    ensures TextAt(head, 0, "LOTA_POLICY_V1") ==> TextAt(p, 0, "LOTA_POLICY_V1")
  {
    assert forall i :: 0 <= i < 22 ==> p[i] == p[0..22][i];
  }
}
