/**
 The startup policy digest (src/agent/startup_policy.c): the mode, the flags,
 the allowed fs-verity digests, the set of protected PIDs and the set of
 trusted libraries, hashed in a canonical form.
 */
module PolicyDigest {
  import opened ByteCodec
  import opened Canonical
  import opened DigestInputs
  import opened Errors
  import opened Paths

  const MAX_PIDS := 1024
  const MAX_LIBS := 512

  /** A path as the configuration stores it: bytes without a NUL, in a PATH_MAX buffer. */
  type Path = p: string | |p| < PATH_MAX && forall i :: 0 <= i < |p| ==> 0 < p[i] as int < 0x100 witness ""

  datatype Flags = Flags(
    strictMmap: bool, strictExec: bool, blockPtrace: bool, strictModules: bool, blockAnonExec: bool)

  /** What is hashed. The PIDs and libraries are listings of sets. */
  datatype Policy = Policy(mode: U32, flags: Flags, digests: seq<Verity>, pids: seq<U32>, libs: seq<Path>)

  // ----- the canonical listings

  function PathBytes(p: Path): (r: Field)
    ensures |r| == |p|
  {
    seq(|p|, i requires 0 <= i < |p| => p[i] as int)
  }

  predicate LePath(a: Path, b: Path) {
    LeLex(PathBytes(a), PathBytes(b))
  }

  lemma PathBytesInjective(a: Path, b: Path)
    requires PathBytes(a) == PathBytes(b)
    ensures a == b
  {
    assert |a| == |PathBytes(a)| == |b|;
    forall i | 0 <= i < |a| ensures a[i] == b[i] {
      assert PathBytes(a)[i] == PathBytes(b)[i];
    }
  }

  lemma PathOrder()
    ensures TotalOrder(LePath)
  {
    hide PathBytes, LeLex;
    forall a, b ensures LePath(a, b) || LePath(b, a) { LexTotal(PathBytes(a), PathBytes(b)); }
    forall a, b | LePath(a, b) && LePath(b, a) ensures a == b {
      LexAntisymmetric(PathBytes(a), PathBytes(b));
      PathBytesInjective(a, b);
    }
    forall a, b, c | LePath(a, b) && LePath(b, c) ensures LePath(a, c) {
      LexTransitive(PathBytes(a), PathBytes(b), PathBytes(c));
    }
  }

  lemma AsInts(pids: seq<U32>)
    ensures Elements<U32>(pids) == Elements<int>(pids)
  {
    forall x: int ensures x in Elements<U32>(pids) <==> x in Elements<int>(pids) {}
  }

  function PidSet(pids: seq<U32>): (r: seq<U32>)
    ensures Increasing(r) && |r| <= |pids| && Elements(r) == Elements(pids)
  {
    IntOrder();
    CanonIsCanonical<int>(pids, LeInt);
    var r := Canon<int>(pids, LeInt);
    assert forall i :: 0 <= i < |r| ==> r[i] in Elements<int>(r);
    AsInts(pids);
    AsInts(r);
    r
  }

  function LibSet(libs: seq<Path>): (r: seq<Path>)
    ensures |r| <= |libs| && Elements(r) == Elements(libs)
  {
    PathOrder();
    CanonIsCanonical(libs, LePath);
    Canon(libs, LePath)
  }

  lemma PidSetIgnoresOrder(a: seq<U32>, b: seq<U32>)
    ensures PidSet(a) == PidSet(b) <==> Elements(a) == Elements(b)
  {
    IntOrder();
    CanonIgnoresOrder<int>(a, b, LeInt);
    AsInts(a);
    AsInts(b);
  }

  lemma LibSetIgnoresOrder(a: seq<Path>, b: seq<Path>)
    ensures LibSet(a) == LibSet(b) <==> Elements(a) == Elements(b)
  {
    PathOrder();
    CanonIgnoresOrder(a, b, LePath);
  }

  // ----- the bytes hashed

  function FlagWord(f: Flags): U32 {
    (if f.strictMmap then 1 else 0) + (if f.strictExec then 2 else 0) + (if f.blockPtrace then 4 else 0)
    + (if f.strictModules then 8 else 0) + (if f.blockAnonExec then 16 else 0) + 32
  }

  lemma FlagWordInjective(a: Flags, b: Flags)
    requires FlagWord(a) == FlagWord(b)
    ensures a == b
  {
  }

  const POLICY_DOMAIN: Bytes := Ascii("LOTA_POLICY_V1")

  function LibFields(libs: seq<Path>): (r: seq<Field>)
    ensures |r| == |libs|
  {
    seq(|libs|, i requires 0 <= i < |libs| => PathBytes(libs[i]))
  }

  lemma LibFieldsInjective(a: seq<Path>, b: seq<Path>)
    requires LibFields(a) == LibFields(b)
    ensures a == b
  {
    assert |a| == |LibFields(a)| == |b|;
    forall i | 0 <= i < |a| ensures a[i] == b[i] {
      assert LibFields(a)[i] == LibFields(b)[i];
      PathBytesInjective(a[i], b[i]);
    }
  }

  /** A counted list of length-prefixed fields. */
  function Counted(fs: seq<Field>): Bytes
    requires |fs| < U32_RANGE
  {
    Le32(|fs|) + Blocks(fs)
  }

  function CountedWords(ws: seq<U32>): Bytes
    requires |ws| < U32_RANGE
  {
    Le32(|ws|) + Words(ws)
  }

  predicate Hashable(c: Policy) {
    |c.digests| < U32_RANGE && |c.pids| <= MAX_PIDS && |c.libs| <= MAX_LIBS
  }

  function Preamble(c: Policy): (r: Bytes)
    ensures |r| == 22
  {
    POLICY_DOMAIN + Le32(c.mode) + Le32(FlagWord(c.flags))
  }

  function PolicyInput(c: Policy): Bytes
    requires Hashable(c)
  {
    Preamble(c) + Counted(c.digests) + CountedWords(PidSet(c.pids)) + Counted(LibFields(LibSet(c.libs)))
  }

  lemma PreambleInjective(a: Policy, b: Policy)
    requires Preamble(a) == Preamble(b)
    ensures a.mode == b.mode && a.flags == b.flags
  {
    hide FlagWord, Le32;
    SplitEqual(POLICY_DOMAIN + Le32(a.mode), Le32(FlagWord(a.flags)),
               POLICY_DOMAIN + Le32(b.mode), Le32(FlagWord(b.flags)));
    SplitEqual(POLICY_DOMAIN, Le32(a.mode), POLICY_DOMAIN, Le32(b.mode));
    Le32Injective(a.mode, b.mode);
    Le32Injective(FlagWord(a.flags), FlagWord(b.flags));
    FlagWordInjective(a.flags, b.flags);
  }

  lemma CountedSplit(a: seq<Field>, x: Bytes, b: seq<Field>, y: Bytes)
    requires |a| < U32_RANGE && |b| < U32_RANGE && Counted(a) + x == Counted(b) + y
    ensures a == b && x == y
  {
    hide Le32, Blocks;
    Associative(Le32(|a|), Blocks(a), x);
    Associative(Le32(|b|), Blocks(b), y);
    SplitEqual(Le32(|a|), Blocks(a) + x, Le32(|b|), Blocks(b) + y);
    Le32Injective(|a|, |b|);
    BlocksSplit(a, x, b, y);
  }

  lemma CountedWordsSplit(a: seq<U32>, x: Bytes, b: seq<U32>, y: Bytes)
    requires |a| < U32_RANGE && |b| < U32_RANGE && CountedWords(a) + x == CountedWords(b) + y
    ensures a == b && x == y
  {
    hide Le32, Words;
    Associative(Le32(|a|), Words(a), x);
    Associative(Le32(|b|), Words(b), y);
    SplitEqual(Le32(|a|), Words(a) + x, Le32(|b|), Words(b) + y);
    Le32Injective(|a|, |b|);
    WordsSplit(a, x, b, y);
  }

  /** The two policies agree, the PIDs and libraries read as sets. */
  ghost predicate SamePolicy(a: Policy, b: Policy) {
    && a.mode == b.mode && a.flags == b.flags && a.digests == b.digests
    && Elements(a.pids) == Elements(b.pids) && Elements(a.libs) == Elements(b.libs)
  }

  /** The same bytes are hashed exactly for the same mode, flags, digest sequence, PID set and library set. */
  lemma InputIsThePolicy(a: Policy, b: Policy)
    requires Hashable(a) && Hashable(b)
    ensures PolicyInput(a) == PolicyInput(b) <==> SamePolicy(a, b)
  {
    hide Preamble, Counted, CountedWords, PidSet, LibSet, LibFields;
    PidSetIgnoresOrder(a.pids, b.pids);
    LibSetIgnoresOrder(a.libs, b.libs);
    if SamePolicy(a, b) {
      SamePreamble(a, b);
    }
    if PolicyInput(a) == PolicyInput(b) {
      PolicyInputInjective(a, b);
    }
  }

  /** One digest, one policy, unless SHA-256 collides on the two inputs. */
  lemma DigestBindsPolicy(h: Hash, a: Policy, b: Policy)
    requires Hashable(a) && Hashable(b) && h(PolicyInput(a)) == h(PolicyInput(b))
    ensures SamePolicy(a, b) || Collides(h, PolicyInput(a), PolicyInput(b))
  {
    hide PolicyInput, SamePolicy;
    InputIsThePolicy(a, b);
  }

  lemma SamePreamble(a: Policy, b: Policy)
    requires a.mode == b.mode && a.flags == b.flags
    ensures Preamble(a) == Preamble(b)
  {
  }

  lemma PolicyInputInjective(a: Policy, b: Policy)
    requires Hashable(a) && Hashable(b) && PolicyInput(a) == PolicyInput(b)
    ensures a.mode == b.mode && a.flags == b.flags && a.digests == b.digests
    ensures PidSet(a.pids) == PidSet(b.pids) && LibSet(a.libs) == LibSet(b.libs)
  {
    hide Preamble, Counted, CountedWords, PidSet, LibSet, LibFields;
    var pa, pb := PidSet(a.pids), PidSet(b.pids);
    var la, lb := LibFields(LibSet(a.libs)), LibFields(LibSet(b.libs));
    Associative(Preamble(a) + Counted(a.digests), CountedWords(pa), Counted(la));
    Associative(Preamble(b) + Counted(b.digests), CountedWords(pb), Counted(lb));
    Associative(Preamble(a), Counted(a.digests), CountedWords(pa) + Counted(la));
    Associative(Preamble(b), Counted(b.digests), CountedWords(pb) + Counted(lb));
    SplitEqual(Preamble(a), Counted(a.digests) + (CountedWords(pa) + Counted(la)),
               Preamble(b), Counted(b.digests) + (CountedWords(pb) + Counted(lb)));
    PreambleInjective(a, b);
    CountedSplit(a.digests, CountedWords(pa) + Counted(la), b.digests, CountedWords(pb) + Counted(lb));
    CountedWordsSplit(pa, Counted(la), pb, Counted(lb));
    assert Counted(la) + [] == Counted(la) && Counted(lb) + [] == Counted(lb);
    CountedSplit(la, [], lb, []);
    LibFieldsInjective(LibSet(a.libs), LibSet(b.libs));
  }

  // ----- canonicalising

  /** How many elements of a sorted array differ from their predecessor. */
  method CountUnique<T(==)>(s: seq<T>) returns (n: nat)
    ensures n == |Dedup(s)|
  {
    hide Dedup;
    n := 0;
    assert |Dedup(s[..0])| == 0 by { DedupShort(s[..0]); }
    for i := 0 to |s|
      invariant n == |Dedup(s[..i])|
    {
      DedupNext(s, i);
      if i == 0 || s[i] != s[i - 1] {
        n := n + 1;
      }
    }
    assert s[..|s|] == s;
  }

  /** Copies those elements. */
  method CopyUnique<T(==)>(s: seq<T>) returns (canon: seq<T>)
    ensures canon == Dedup(s)
  {
    hide Dedup;
    canon := [];
    assert Dedup(s[..0]) == [] by { DedupShort(s[..0]); }
    for i := 0 to |s|
      invariant canon == Dedup(s[..i])
    {
      DedupNext(s, i);
      if i != 0 && s[i] == s[i - 1] {
        continue;
      }
      canon := canon + [s[i]];
    }
    assert s[..|s|] == s;
  }

  lemma DedupShort<T>(s: seq<T>)
    requires |s| < 2
    ensures Dedup(s) == s
  {
  }

  /** canonicalize_u32_set: sort, count, copy. */
  method CanonicalizePids(pids: seq<U32>, noMemory: bool) returns (r: Result<seq<U32>>)
    ensures r.Ok? <==> pids == [] || !noMemory
    ensures r.Ok? ==> r.value == PidSet(pids)
  {
    hide Sort, Dedup, Increasing;
    assert |PidSet(pids)| <= |pids|;
    if |pids| == 0 {
      return Ok([]);
    }
    if noMemory {
      return Err(ENOMEM);
    }
    var sorted := Sort<int>(pids, LeInt);
    var canon := CopyUnique(sorted);
    assert canon == PidSet(pids);
    return Ok(canon);
  }

  /** canonicalize_trust_libs: the same over strings. */
  method CanonicalizeLibs(libs: seq<Path>, noMemory: bool) returns (r: Result<seq<Path>>)
    ensures r.Ok? <==> libs == [] || !noMemory
    ensures r.Ok? ==> r.value == LibSet(libs)
  {
    hide Sort, Dedup;
    assert |LibSet(libs)| <= |libs|;
    if |libs| == 0 {
      return Ok([]);
    }
    if noMemory {
      return Err(ENOMEM);
    }
    var canon := CopyUnique(Sort(libs, LePath));
    return Ok(canon);
  }

  // ----- hashing

  lemma {:induction false} WordsAppend(ws: seq<U32>, w: U32)
    ensures Words(ws + [w]) == Words(ws) + Le32(w)
  {
    if ws == [] {
      assert Words(ws + [w]) == Le32(w) + Words([]);
      assert Words([]) == [];
    } else {
      WordsAppend(ws[1..], w);
      assert (ws + [w])[1..] == ws[1..] + [w];
      Associative(Le32(ws[0]), Words(ws[1..]), Le32(w));
    }
  }

  lemma {:induction false} BlocksAppend(fs: seq<Field>, f: Field)
    ensures Blocks(fs + [f]) == Blocks(fs) + Block(f)
  {
    if fs == [] {
      assert Blocks(fs + [f]) == Block(f) + Blocks([]);
      assert Blocks([]) == [];
    } else {
      BlocksAppend(fs[1..], f);
      assert (fs + [f])[1..] == fs[1..] + [f];
      Associative(Block(fs[0]), Blocks(fs[1..]), Block(f));
    }
  }

  ghost predicate AllSha512(ds: seq<Verity>) {
    forall i :: 0 <= i < |ds| ==> |ds[i]| == VERITY_SIZE
  }

  /** Hashes the digests one by one, refusing any that is not a SHA-512. */
  method HashDigests(ctx: Bytes, ds: seq<Verity>) returns (r: Result<Bytes>)
    ensures r.Ok? <==> AllSha512(ds)
    ensures r.Err? ==> r.error == EINVAL
    ensures r.Ok? ==> r.value == ctx + Blocks(ds)
  {
    hide Blocks, Block;
    var out := ctx;
    assert Blocks(ds[..0]) == [] by { BlocksNil(ds[..0]); }
    for i := 0 to |ds|
      invariant forall j :: 0 <= j < i ==> |ds[j]| == VERITY_SIZE
      invariant out == ctx + Blocks(ds[..i])
    {
      if |ds[i]| != VERITY_SIZE {
        return Err(EINVAL);
      }
      assert ds[..i + 1] == ds[..i] + [ds[i]];
      BlocksAppend(ds[..i], ds[i]);
      Associative(ctx, Blocks(ds[..i]), Block(ds[i]));
      out := out + Block(ds[i]);
    }
    assert ds[..|ds|] == ds;
    return Ok(out);
  }

  lemma BlocksNil(fs: seq<Field>)
    requires fs == []
    ensures Blocks(fs) == []
  {
  }

  function SortPids(pids: seq<U32>): (r: seq<U32>)
    ensures r == Sort<int>(pids, LeInt) && Dedup(r) == PidSet(pids)
  {
    SortPermutes<int>(pids, LeInt);
    var r := Sort<int>(pids, LeInt);
    assert forall i :: 0 <= i < |r| ==> r[i] in multiset(r);
    DedupAsInts(r);
    r
  }

  lemma {:induction false} DedupAsInts(s: seq<U32>)
    ensures Dedup<U32>(s) == Dedup<int>(s)
  {
    if |s| >= 2 { DedupAsInts(s[1..]); }
  }

  /** Hashes the count and values of the sorted PIDs, skipping repeats. */
  method HashPids(ctx: Bytes, pids: seq<U32>) returns (out: Bytes)
    requires |pids| <= MAX_PIDS
    ensures out == ctx + CountedWords(PidSet(pids))
  {
    hide Sort, Dedup, Words, Le32, PidSet, SortPids, Increasing;
    assert |PidSet(pids)| <= |pids|;
    var s := SortPids(pids);
    var unique := CountUnique(s);
    out := ctx + Le32(unique);
    ghost var base := out;
    assert Words(Dedup(s[..0])) == [] by { DedupShort(s[..0]); WordsNil(s[..0]); }
    for i := 0 to |s|
      invariant out == base + Words(Dedup(s[..i]))
    {
      DedupNext(s, i);
      if i != 0 && s[i] == s[i - 1] {
        continue;
      }
      WordsAppend(Dedup(s[..i]), s[i]);
      Associative(base, Words(Dedup(s[..i])), Le32(s[i]));
      out := out + Le32(s[i]);
    }
    assert s[..|s|] == s;
    Associative(ctx, Le32(unique), Words(PidSet(pids)));
  }

  lemma WordsNil(ws: seq<U32>)
    requires ws == []
    ensures Words(ws) == []
  {
  }

  /** The same over strings, each with its length. */
  method HashLibs(ctx: Bytes, libs: seq<Path>) returns (out: Bytes)
    requires |libs| <= MAX_LIBS
    ensures out == ctx + Counted(LibFields(LibSet(libs)))
  {
    hide Sort, Dedup, Blocks, Block, Le32, LibFields, PathBytes;
    assert |LibSet(libs)| <= |libs|;
    var s := Sort(libs, LePath);
    var unique := CountUnique(s);
    out := ctx + Le32(unique);
    ghost var base := out;
    assert Blocks(LibFields(Dedup(s[..0]))) == [] by { DedupShort(s[..0]); BlocksNil(LibFields(s[..0])); }
    for i := 0 to |s|
      invariant out == base + Blocks(LibFields(Dedup(s[..i])))
    {
      DedupNext(s, i);
      if i != 0 && s[i] == s[i - 1] {
        continue;
      }
      ghost var done := Dedup(s[..i]);
      LibFieldsAppend(done, s[i]);
      BlocksAppend(LibFields(done), PathBytes(s[i]));
      Associative(base, Blocks(LibFields(done)), Block(PathBytes(s[i])));
      out := out + Block(PathBytes(s[i]));
    }
    assert s[..|s|] == s;
    Associative(ctx, Le32(unique), Blocks(LibFields(LibSet(libs))));
  }

  lemma LibFieldsAppend(libs: seq<Path>, p: Path)
    ensures LibFields(libs + [p]) == LibFields(libs) + [PathBytes(p)]
  {
  }

  /** compute_policy_digest. */
  method ComputePolicyDigest(h: Hash, c: Policy, noMemory: bool) returns (r: Result<Bytes>)
    requires |c.digests| < U32_RANGE
    ensures r.Ok? <==> Hashable(c) && AllSha512(c.digests) && !noMemory
    ensures r.Err? ==>
      r.error == if |c.pids| > 1024 || |c.libs| > 512 then ENOSPC else if noMemory then ENOMEM else EINVAL
    ensures r.Ok? ==> r.value == h(PolicyInput(c))
  {
    hide CountedWords, LibFields, LibSet, PidSet, FlagWord, Le32, Blocks;
    if |c.pids| > MAX_PIDS || |c.libs| > MAX_LIBS {
      return Err(ENOSPC);
    }
    if noMemory {
      return Err(ENOMEM);
    }
    var ctx := POLICY_DOMAIN;
    ctx := ctx + Le32(c.mode);
    ctx := ctx + Le32(FlagWord(c.flags));
    ctx := ctx + Le32(|c.digests|);
    var hashed := HashDigests(ctx, c.digests);
    if hashed.Err? {
      return Err(hashed.error);
    }
    Associative(Preamble(c), Le32(|c.digests|), Blocks(c.digests));
    ctx := HashPids(hashed.value, c.pids);
    ctx := HashLibs(ctx, c.libs);
    return Ok(h(ctx));
  }

  // ----- the snapshot

  /** What startup commits: the same policy with canonical listings. */
  function Snapshot(c: Policy): Policy {
    Policy(c.mode, c.flags, c.digests, PidSet(c.pids), LibSet(c.libs))
  }

  /** The snapshot keeps everything but order and repetition, and lists the sets in increasing order. */
  lemma SnapshotIsCanonical(c: Policy)
    ensures var s := Snapshot(c);
            && s.mode == c.mode && s.flags == c.flags && s.digests == c.digests
            && Increasing(s.pids) && Elements(s.pids) == Elements(c.pids)
            && Strict(s.libs, LePath) && Elements(s.libs) == Elements(c.libs)
  {
    PathOrder();
    CanonIsCanonical(c.libs, LePath);
  }

  /**
   Recomputing from the snapshot, with any listing of the startup PIDs, hashes
   the startup bytes; with any other set of PIDs it hashes other bytes.
   */
  lemma RecomputeFromSnapshot(c: Policy, pids: seq<U32>)
    requires Hashable(c) && |pids| <= MAX_PIDS
    ensures Hashable(Snapshot(c).(pids := pids))
    ensures PolicyInput(Snapshot(c).(pids := pids)) == PolicyInput(c) <==> Elements(pids) == Elements(c.pids)
  {
    hide PolicyInput, PidSet, LibSet;
    assert |LibSet(c.libs)| <= |c.libs|;
    InputIsThePolicy(Snapshot(c).(pids := pids), c);
  }

  /** agent_compute_policy_digest_for_protect_pids. */
  method RecomputeForPids(h: Hash, snapshot: Option<Policy>, pids: seq<U32>, noMemory: bool) returns (r: Result<Bytes>)
    requires snapshot.Some? ==> |snapshot.value.digests| < U32_RANGE
    ensures r.Ok? ==> snapshot.Some?
    ensures forall c: Policy | Hashable(c) && AllSha512(c.digests) && snapshot == Some(Snapshot(c)) ::
              (r.Ok? <==> |pids| <= MAX_PIDS && !noMemory)
              && (Elements(pids) == Elements(c.pids) && r.Ok? ==> r.value == h(PolicyInput(c)))
  {
    if snapshot.None? {
      return Err(EINVAL);
    }
    r := ComputePolicyDigest(h, snapshot.value.(pids := pids), noMemory);
    hide PolicyInput, PidSet, LibSet;
    forall c: Policy | Hashable(c) && AllSha512(c.digests) && snapshot == Some(Snapshot(c))
      ensures (r.Ok? <==> |pids| <= MAX_PIDS && !noMemory)
              && (Elements(pids) == Elements(c.pids) && r.Ok? ==> r.value == h(PolicyInput(c)))
    {
      assert |LibSet(c.libs)| <= |c.libs|;
      if |pids| <= MAX_PIDS {
        RecomputeFromSnapshot(c, pids);
      }
    }
  }
}
