/**
 Applying the startup policy (agent_apply_startup_policy in
 src/agent/startup_policy.c): many map updates in a fixed order, undone in
 reverse if any of them fails, and a digest and snapshot committed only at the
 end.
 */
module StartupPolicy {
  import opened ByteCodec
  import opened Canonical
  import opened DigestInputs
  import opened Enforcement
  import opened PolicyDigest
  import opened TrustMaps
  import opened TrustedLibs

  datatype Startup = Startup(mode: U32, flags: Flags, pids: seq<U32>, libs: seq<Path>, allow: seq<Path>)

  /** The fs-verity digest of a file. */
  type MeasureFile = Path -> Option<Verity>

  /** Which checks fail on the way: they change nothing. */
  datatype Faults = Faults(hardening: bool, integrity: bool, noMemory: bool, noSnapshot: bool)

  ghost predicate AllMeasurable(allow: seq<Path>, measure: MeasureFile) {
    forall i :: 0 <= i < |allow| ==> measure(allow[i]).Some? && |measure(allow[i]).value| == VERITY_SIZE
  }

  /** Nothing but a failing map update stands in the way of the policy up to its lists. */
  ghost predicate Ready(s: Startup, measure: MeasureFile, f: Faults) {
    && !f.hardening && !f.integrity && !f.noMemory && AllMeasurable(s.allow, measure)
    && (s.allow == [] ==> !s.flags.strictExec && !s.flags.strictModules)
    && |s.pids| <= MAX_PIDS && |s.libs| <= MAX_LIBS && s.mode <= MAINTENANCE
  }

  /** And up to its commit. */
  ghost predicate Sound(s: Startup, measure: MeasureFile, f: Faults) {
    Ready(s, measure, f) && !f.noSnapshot
  }

  // ----- how far the policy has been applied

  /** What has been applied so far: the local counters of the source. */
  datatype Progress = Progress(lock: bool, flags: Flags, digests: seq<Verity>, modeSet: bool, pids: nat, libs: nat)

  /** The state the policy is applied to. */
  datatype Image = Image(
    lock: bool, flags: Flags, kernelMode: U32, mode: U32, pids: set<U32>, allow: set<Verity>, outstanding: seq<string>)

  ghost function View(a: Agent): Image
    reads a, a.maps
  {
    Image(a.kernelLock, a.kernelFlags, a.kernelMode, a.mode, a.kernelPids, a.allowlist, a.maps.outstanding)
  }

  ghost predicate Raised(now: Flags, before: Flags, applied: Flags) {
    forall c :: Get(now, c) <==> Get(before, c) || Get(applied, c)
  }

  ghost predicate Lowered(now: Flags, before: Flags, applied: Flags) {
    forall c :: Get(now, c) <==> Get(before, c) && !Get(applied, c)
  }

  /** Starting from b, exactly the progress p has been made. */
  ghost predicate Progressed(b: Image, n: Image, s: Startup, p: Progress) {
    && p.pids <= |s.pids| && p.libs <= |s.libs| && AllSha512(p.digests)
    && n.lock == (b.lock || p.lock) && Raised(n.flags, b.flags, p.flags)
    && n.kernelMode == (if p.modeSet then s.mode else b.kernelMode)
    && n.mode == (if p.modeSet then s.mode else b.mode)
    && n.pids == b.pids + Elements(s.pids[..p.pids])
    && n.allow == b.allow + Elements(p.digests)
    && n.outstanding == b.outstanding + s.libs[..p.libs]
  }

  const NOTHING := Progress(false, NO_FLAGS, [], false, 0, 0)

  lemma NothingYet(b: Image, s: Startup)
    ensures Progressed(b, b, s, NOTHING)
  {
    assert b.outstanding + s.libs[..0] == b.outstanding;
  }

  // ----- applying

  lemma RaiseOne(now: Flags, before: Flags, applied: Flags, c: Cfg)
    requires Raised(now, before, applied)
    ensures Raised(Put(now, c, true), before, Put(applied, c, true))
  {
  }

  /** Turns a flag on if the policy wants it. */
  method Enable(a: Agent, c: Cfg, s: Startup, p: Progress, ghost b: Image) returns (ok: bool, q: Progress)
    requires a.Valid() && Progressed(b, View(a), s, p)
    modifies a`kernelFlags, a`faults
    ensures a.Valid() && Progressed(b, View(a), s, q) && q == p.(flags := q.flags)
    ensures a.faults == old(a.faults) + if ok then 0 else 1
    ensures ok ==> q.flags == if Get(s.flags, c) then Put(p.flags, c, true) else p.flags
  {
    hide Get, Put, Elements;
    q, ok := p, true;
    if Get(s.flags, c) {
      RaiseOne(a.kernelFlags, b.flags, p.flags, c);
      ok := a.SetConfig(c, true, false);
      if ok {
        q := p.(flags := Put(p.flags, c, true));
      }
    }
  }

  /** Measures and allows every listed file, up to the first failure. */
  method AllowEach(a: Agent, allow: seq<Path>, measure: MeasureFile) returns (digests: seq<Verity>, ok: bool)
    modifies a`allowlist, a`faults
    ensures a.faults >= old(a.faults) && (!ok && AllMeasurable(allow, measure) ==> a.faults > old(a.faults))
    ensures a.allowlist == old(a.allowlist) + Elements(digests) && AllSha512(digests) && |digests| <= |allow|
    ensures forall i :: 0 <= i < |digests| ==> measure(allow[i]) == Some(digests[i])
    ensures ok ==> |digests| == |allow|
  {
    digests := [];
    for i := 0 to |allow|
      invariant a.faults == old(a.faults)
      invariant |digests| == i && AllSha512(digests) && a.allowlist == old(a.allowlist) + Elements(digests)
      invariant forall j :: 0 <= j < i ==> measure(allow[j]) == Some(digests[j])
    {
      var d := measure(allow[i]);
      if d.None? {
        return digests, false;
      }
      ok := a.Allow(d.value);
      if !ok {
        return;
      }
      digests := digests + [d.value];
    }
    ok := true;
  }

  /** verity_digest_key_cmp. */
  predicate LeVerity(x: Verity, y: Verity) {
    |x| < |y| || (|x| == |y| && LeLex(x, y))
  }

  lemma VerityOrder()
    ensures TotalOrder(LeVerity)
  {
    hide LeLex;
    forall a: Verity, b: Verity ensures LeVerity(a, b) || LeVerity(b, a) { LexTotal(a, b); }
    forall a: Verity, b: Verity | LeVerity(a, b) && LeVerity(b, a) ensures a == b { LexAntisymmetric(a, b); }
    forall a: Verity, b: Verity, c: Verity | LeVerity(a, b) && LeVerity(b, c) ensures LeVerity(a, c) {
      if |a| == |b| == |c| { LexTransitive(a, b, c); }
    }
  }

  /** The committed digests are in memcmp order. */
  ghost predicate InOrder(ds: seq<Verity>) {
    forall i, j :: 0 <= i < j < |ds| ==> LeLex(ds[i], ds[j])
  }

  lemma SortedInOrder(ds: seq<Verity>)
    requires AllSha512(ds)
    ensures AllSha512(Sort(ds, LeVerity)) && InOrder(Sort(ds, LeVerity))
  {
    hide Sort, LeLex, Sorted;
    var s := Sort(ds, LeVerity);
    VerityOrder();
    SortSorts(ds, LeVerity);
    SortedDigests(ds);
    forall i, j | 0 <= i < j < |s| ensures LeLex(s[i], s[j]) {
      SortedPairs(s, LeVerity, i, j);
    }
  }

  /** Sorting the digests keeps what was allowed. */
  lemma SortedDigests(ds: seq<Verity>)
    requires AllSha512(ds)
    ensures var s := Sort(ds, LeVerity); AllSha512(s) && Elements(s) == Elements(ds) && |s| == |ds|
  {
    hide Sort, LeVerity;
    var s := Sort(ds, LeVerity);
    SortPermutes(ds, LeVerity);
    assert |multiset(s)| == |multiset(ds)|;
    forall x ensures x in s <==> x in ds {
      assert x in multiset(s) <==> x in multiset(ds);
    }
    forall i | 0 <= i < |s| ensures |s[i]| == VERITY_SIZE {
      assert s[i] in ds;
    }
  }

  /** What is committed at the end: the policy with its digests in canonical order, and its hash. */
  datatype Commit = Commit(policy: Policy, digest: Bytes)

  ghost predicate MeasuredAs(allow: seq<Path>, measure: MeasureFile, ds: seq<Verity>) {
    |ds| == |allow| && forall i :: 0 <= i < |ds| ==> measure(allow[i]) == Some(ds[i])
  }

  /** The commit is the hash of this policy over the measured allowlist. */
  ghost predicate Computed(h: Hash, s: Startup, measure: MeasureFile, c: Commit) {
    && Hashable(c.policy) && AllSha512(c.policy.digests) && c.digest == h(PolicyInput(c.policy))
    && c.policy.mode == s.mode && c.policy.flags == s.flags && c.policy.pids == s.pids && c.policy.libs == s.libs
    && exists ds :: MeasuredAs(s.allow, measure, ds) && c.policy.digests == Sort(ds, LeVerity)
  }

  /** A file has one digest. */
  lemma MeasuredOnce(allow: seq<Path>, measure: MeasureFile, ds: seq<Verity>, es: seq<Verity>)
    requires MeasuredAs(allow, measure, ds) && MeasuredAs(allow, measure, es)
    ensures ds == es
  {
  }

  lemma CommitDigests(h: Hash, s: Startup, measure: MeasureFile, c: Commit, ds: seq<Verity>)
    requires Computed(h, s, measure, c) && MeasuredAs(s.allow, measure, ds)
    ensures c.policy.digests == Sort(ds, LeVerity)
  {
    var es :| MeasuredAs(s.allow, measure, es) && c.policy.digests == Sort(es, LeVerity);
    MeasuredOnce(s.allow, measure, ds, es);
  }

  /**
   The order of the allowlist does not matter, nor does the order or repetition
   of PIDs and libraries: two startups commit one digest exactly when they
   agree on the mode, the flags, the multiset of measured digests, the PID set
   and the library set. Otherwise SHA-256 collides on the two inputs.
   */
  lemma OneCommitPerPolicy(h: Hash, s: Startup, m: MeasureFile, c: Commit, ds: seq<Verity>,
                           t: Startup, n: MeasureFile, d: Commit, es: seq<Verity>)
    requires Computed(h, s, m, c) && MeasuredAs(s.allow, m, ds)
    requires Computed(h, t, n, d) && MeasuredAs(t.allow, n, es)
    requires !Collides(h, PolicyInput(c.policy), PolicyInput(d.policy))
    ensures c.digest == d.digest <==>
            && s.mode == t.mode && s.flags == t.flags && multiset(ds) == multiset(es)
            && Elements(s.pids) == Elements(t.pids) && Elements(s.libs) == Elements(t.libs)
  {
    hide PolicyInput, Sort, LeVerity, Elements;
    CommitDigests(h, s, m, c, ds);
    CommitDigests(h, t, n, d, es);
    VerityOrder();
    SortIgnoresOrder(ds, es, LeVerity);
    InputIsThePolicy(c.policy, d.policy);
  }

  lemma CommitInOrder(h: Hash, s: Startup, measure: MeasureFile, c: Commit)
    requires Computed(h, s, measure, c)
    ensures InOrder(c.policy.digests)
  {
    hide PolicyInput, Sort, LeVerity, InOrder;
    var ds :| MeasuredAs(s.allow, measure, ds) && c.policy.digests == Sort(ds, LeVerity);
    SortedDigestsBack(ds);
    SortedInOrder(ds);
  }

  lemma SortedDigestsBack(ds: seq<Verity>)
    requires AllSha512(Sort(ds, LeVerity))
    ensures AllSha512(ds)
  {
    hide Sort, LeVerity;
    var s := Sort(ds, LeVerity);
    SortPermutes(ds, LeVerity);
    forall i | 0 <= i < |ds| ensures |ds[i]| == VERITY_SIZE {
      assert ds[i] in multiset(s);
    }
  }

  /** Allows the listed files, sorts their digests and hashes the policy. */
  method AllowAndHash(h: Hash, a: Agent, s: Startup, measure: MeasureFile, noMemory: bool)
    returns (r: Option<Commit>, digests: seq<Verity>)
    requires |s.allow| < U32_RANGE
    modifies a`allowlist, a`faults
    ensures a.faults >= old(a.faults)
    ensures r.None? && (exists f: Faults :: f.noMemory == noMemory && Ready(s, measure, f)) ==> a.faults > old(a.faults)
    ensures r.Some? ==> !noMemory && AllMeasurable(s.allow, measure) && |s.pids| <= MAX_PIDS && |s.libs| <= MAX_LIBS
    ensures a.allowlist == old(a.allowlist) + Elements(digests) && AllSha512(digests)
    ensures r.Some? ==> Computed(h, s, measure, r.value) && r.value.policy.digests == digests && InOrder(digests)
    ensures noMemory ==> r.None? && a.allowlist == old(a.allowlist)
    ensures r.Some? && s.allow == [] ==> !s.flags.strictExec && !s.flags.strictModules
  {
    hide PolicyInput, Sort, LeVerity, InOrder;
    digests := [];
    if |s.allow| > 0 {
      if noMemory {
        return None, [];
      }
      var ok;
      digests, ok := AllowEach(a, s.allow, measure);
      if !ok {
        return None, digests;
      }
    } else if s.flags.strictExec || s.flags.strictModules {
      return None, [];
    }
    assert MeasuredAs(s.allow, measure, digests);
    SortedDigests(digests);
    SortedInOrder(digests);
    digests := Sort(digests, LeVerity);
    var c := Policy(s.mode, s.flags, digests, s.pids, s.libs);
    var digest := ComputePolicyDigest(h, c, noMemory);
    if digest.Err? {
      return None, digests;
    }
    return Some(Commit(c, digest.value)), digests;
  }

  /** Lock, strict mmap, allowlist and digest. */
  method ApplyFirst(h: Hash, a: Agent, s: Startup, measure: MeasureFile, faults: Faults, ghost b: Image)
    returns (r: Option<Commit>, p: Progress)
    requires a.Valid() && b == View(a) && |s.allow| < U32_RANGE
    modifies a`kernelLock, a`kernelFlags, a`allowlist, a`faults
    ensures a.faults >= old(a.faults) && (r.None? && Ready(s, measure, faults) ==> a.faults > old(a.faults))
    ensures r.Some? && !faults.hardening && s.mode <= MAINTENANCE ==> Ready(s, measure, faults)
    ensures a.Valid() && Progressed(b, View(a), s, p) && !p.modeSet && p.pids == 0 == p.libs
    ensures r.Some? ==> p.lock && p.flags == NO_FLAGS.(strictMmap := s.flags.strictMmap)
    ensures r.Some? ==> Computed(h, s, measure, r.value) && r.value.policy.digests == p.digests
  {
    hide Computed, Elements;
    p := NOTHING;
    NothingYet(b, s);
    var ok := a.SetLock(true, false);
    if !ok {
      return None, p;
    }
    p := p.(lock := true);
    if faults.integrity {
      return None, p;
    }
    ok, p := Enable(a, StrictMmap, s, p, b);
    if !ok {
      return None, p;
    }
    var digests;
    r, digests := AllowAndHash(h, a, s, measure, faults.noMemory);
    assert b.allow + Elements(p.digests) == b.allow by { NoDigests(b.allow); }
    p := p.(digests := digests);
  }

  lemma NoDigests(x: set<Verity>)
    ensures x + Elements<Verity>([]) == x
  {
  }

  /** The other flags, and the mode. */
  method ApplyFlagsAndMode(a: Agent, s: Startup, first: Progress, ghost b: Image) returns (ok: bool, p: Progress)
    requires a.Valid() && Progressed(b, View(a), s, first) && !first.modeSet
    modifies a`kernelFlags, a`kernelMode, a`mode, a`faults
    ensures a.faults >= old(a.faults) && (!ok && s.mode <= MAINTENANCE ==> a.faults > old(a.faults))
    ensures (ok <==> p.modeSet) && (ok ==> s.mode <= MAINTENANCE)
    ensures a.Valid() && Progressed(b, View(a), s, p) && p == first.(flags := p.flags, modeSet := p.modeSet)
    ensures ok && first.flags == NO_FLAGS.(strictMmap := s.flags.strictMmap) ==> p.flags == s.flags && p.modeSet
  {
    hide Elements, Raised;
    ok, p := Enable(a, StrictExec, s, first, b);
    if ok { ok, p := Enable(a, BlockPtrace, s, p, b); }
    if ok { ok, p := Enable(a, StrictModules, s, p, b); }
    if ok { ok, p := Enable(a, BlockAnonExec, s, p, b); }
    if ok { ok := a.SetMode(s.mode, false); }
    if ok {
      a.mode := s.mode;
      p := p.(modeSet := true);
    }
  }

  /** The PIDs and the libraries. */
  method ApplyLists(a: Agent, s: Startup, before: Progress, ghost b: Image) returns (ok: bool, p: Progress)
    requires a.Valid() && Progressed(b, View(a), s, before) && before.pids == 0 == before.libs
    modifies a`kernelPids, a`faults, a.maps
    ensures a.faults >= old(a.faults) && a.maps.faults >= old(a.maps.faults)
    ensures !ok && a.maps.undoWorks && a.maps.matched && CanHold(a.maps, old(a.maps.outstanding) + s.libs) ==>
      a.faults > old(a.faults) || a.maps.faults > old(a.maps.faults)
    ensures a.Valid() && Progressed(b, View(a), s, p) && p == before.(pids := p.pids, libs := p.libs)
    ensures a.maps.matched == old(a.maps.matched) && p.pids <= |s.pids| && (p.libs > 0 ==> p.pids == |s.pids|)
    ensures ok ==> p.pids == |s.pids| && p.libs == |s.libs|
    ensures ok ==> forall base | old(Holds(a.maps, base)) :: Holds(a.maps, base + s.libs)
  {
    hide Elements, Raised, Holds, CanHold;
    p := before;
    assert b.pids + Elements(s.pids[..0]) == b.pids by { NoPids(b.pids, s.pids[..0]); }
    assert b.outstanding + s.libs[..0] == b.outstanding;
    var n := a.ProtectEach(s.pids);
    p := p.(pids := n);
    if n < |s.pids| {
      return false, p;
    }
    var m := TrustEach(a.maps, s.libs);
    p := p.(libs := m);
    ok := m == |s.libs|;
  }

  lemma NoPids(x: set<U32>, s: seq<U32>)
    requires s == []
    ensures x + Elements(s) == x
  {
  }

  // ----- undoing

  method DisallowEach(a: Agent, digests: seq<Verity>)
    requires AllSha512(digests)
    modifies a`allowlist
    ensures a.maps.undoWorks ==> a.allowlist == old(a.allowlist) - Elements(digests)
  {
    for k := 0 to |digests|
      invariant a.maps.undoWorks ==> a.allowlist == old(a.allowlist) - Elements(digests[..k])
    {
      a.Disallow(digests[k], a.maps.undoWorks);
      assert digests[..k + 1] == digests[..k] + [digests[k]];
    }
    assert digests[..|digests|] == digests;
  }

  method Disable(a: Agent, c: Cfg, applied: Flags)
    modifies a`kernelFlags, a`faults
    ensures a.faults >= old(a.faults)
    ensures a.maps.undoWorks ==>
      a.kernelFlags == if Get(applied, c) then Put(old(a.kernelFlags), c, false) else old(a.kernelFlags)
  {
    if Get(applied, c) {
      var _ := a.SetConfig(c, false, a.maps.undoWorks);
    }
  }

  method DisableAll(a: Agent, applied: Flags)
    modifies a`kernelFlags, a`faults
    ensures a.faults >= old(a.faults)
    ensures a.maps.undoWorks ==> Lowered(a.kernelFlags, old(a.kernelFlags), applied)
  {
    Disable(a, BlockAnonExec, applied);
    Disable(a, StrictModules, applied);
    Disable(a, BlockPtrace, applied);
    Disable(a, StrictExec, applied);
    Disable(a, StrictMmap, applied);
  }

  /** Back to the mode read at entry, if it could be read. */
  method RestoreMode(a: Agent, previous: Option<U32>)
    requires a.mode == a.kernelMode && (previous.Some? ==> previous.value <= MAINTENANCE) && a.kernelMode <= MAINTENANCE
    modifies a`kernelMode, a`mode, a`faults
    ensures a.mode == a.kernelMode <= MAINTENANCE && a.faults >= old(a.faults)
    ensures a.maps.undoWorks ==> a.kernelMode == if previous.Some? then previous.value else old(a.kernelMode)
  {
    var m := if previous.Some? then previous.value else a.mode;
    var ok := a.SetMode(m, a.maps.undoWorks);
    if ok {
      a.mode := m;
    }
  }

  /** From b, with progress p, everything applied has been taken back. */
  ghost predicate Undone(b: Image, n: Image, s: Startup, p: Progress, previous: Option<U32>)
    requires p.pids <= |s.pids|
  {
    && n.lock == (b.lock && !p.lock) && Lowered(n.flags, b.flags, p.flags)
    && n.kernelMode == (if p.modeSet && previous.None? then s.mode else b.kernelMode)
    && n.mode == (if p.modeSet then n.kernelMode else b.mode)
    && n.pids == b.pids - Elements(s.pids[..p.pids])
    && n.allow == b.allow - Elements(p.digests)
    && n.outstanding == b.outstanding
  }

  lemma TakenBack<T>(x: set<T>, y: set<T>)
    ensures x + y - y == x - y
  {
  }

  lemma LowerRaised(n: Flags, r: Flags, b: Flags, p: Flags)
    requires Raised(r, b, p) && Lowered(n, r, p)
    ensures Lowered(n, b, p)
  {
  }

  /** The failure path: libraries, PIDs, allowlist, mode, lock, flags. */
  method RollBack(a: Agent, s: Startup, p: Progress, previous: Option<U32>, ghost b: Image)
    requires a.Valid() && Progressed(b, View(a), s, p) && b.kernelMode <= MAINTENANCE
    requires previous.Some? ==> previous.value == b.kernelMode
    modifies a, a.maps
    ensures a.Valid() && (p.modeSet ==> a.mode == a.kernelMode)
    ensures a.faults >= old(a.faults) && a.maps.faults >= old(a.maps.faults)
    ensures a.flags == old(a.flags) && a.pids == old(a.pids) && a.libs == old(a.libs)
    ensures a.maps.undoWorks && old(a.maps.matched) ==> a.maps.matched && Undone(b, View(a), s, p, previous)
  {
    hide Elements, Raised, Lowered, AllSha512, Maps.Valid;
    UntrustBack(a.maps, b.outstanding, s.libs, p.libs);
    a.UnprotectAll(s.pids[..p.pids]);
    TakenBack(b.pids, Elements(s.pids[..p.pids]));
    DisallowEach(a, p.digests);
    TakenBack(b.allow, Elements(p.digests));
    if p.modeSet {
      RestoreMode(a, previous);
    }
    if p.lock {
      var _ := a.SetLock(false, a.maps.undoWorks);
    }
    ghost var raised := a.kernelFlags;
    DisableAll(a, p.flags);
    if a.maps.undoWorks { LowerRaised(a.kernelFlags, raised, b.flags, p.flags); }
  }

  // ----- the whole

  /** What the agent remembers of the policy it enforces. */
  class Store {
    var snapshot: Option<Policy>
    var digest: Option<Bytes>
    var epoch: U64

    constructor ()
      ensures snapshot.None? && digest.None? && epoch == 0
    {
      snapshot, digest, epoch := None, None, 0;
    }
  }

  /** Freshly loaded maps: all empty, all flags off. */
  ghost predicate Fresh(a: Agent)
    reads a, a.maps
  {
    && !a.kernelLock && a.kernelFlags == NO_FLAGS && a.kernelPids == {} && a.allowlist == {}
    && a.maps.libs == {} && a.maps.mounts == map[] && a.maps.outstanding == [] && a.maps.matched
  }

  /** The policy is in force: the kernel holds exactly what it says, and memory the same. */
  ghost predicate InForce(a: Agent, s: Startup, c: Commit)
    reads a, a.maps
  {
    && a.kernelLock && a.kernelFlags == s.flags && a.mode == a.kernelMode == s.mode
    && a.kernelPids == Elements(s.pids) && a.allowlist == Elements(c.policy.digests)
    && (a.maps.undoWorks ==> Holds(a.maps, s.libs))
  }

  lemma FreshImage(a: Agent, s: Startup, c: Commit, p: Progress, b: Image)
    requires Progressed(b, View(a), s, p) && !b.lock && b.flags == NO_FLAGS && b.pids == {} && b.allow == {}
    requires p.lock && p.flags == s.flags && p.modeSet && p.pids == |s.pids| && p.digests == c.policy.digests
    requires a.maps.undoWorks ==> Holds(a.maps, s.libs)
    ensures InForce(a, s, c)
  {
    hide Elements, Holds;
    FlagsEqual(a.kernelFlags, s.flags);
    assert s.pids[..|s.pids|] == s.pids;
  }

  lemma FreshAgain(a: Agent, s: Startup, p: Progress, previous: Option<U32>, b: Image)
    requires p.pids <= |s.pids| && Undone(b, View(a), s, p, previous) && a.Valid() && a.maps.undoWorks && a.maps.matched
    requires !b.lock && b.flags == NO_FLAGS && b.pids == {} && b.allow == {} && b.outstanding == []
    ensures Fresh(a)
  {
    hide Elements, Holds;
    FlagsEqual(a.kernelFlags, NO_FLAGS);
    HoldsNothing(a.maps);
  }

  lemma FreshMaps(a: Agent)
    requires Fresh(a) && a.Valid()
    ensures a.maps.outstanding == [] && a.maps.matched && (a.maps.undoWorks ==> Holds(a.maps, []))
    ensures !a.kernelLock && a.kernelFlags == NO_FLAGS && a.kernelPids == {} && a.allowlist == {}
  {
    hide Maps.Total, Counts;
    if a.maps.undoWorks { HoldsNothing(a.maps); }
  }

  /** Every step in order, up to the first failure; the commit exists only after the last. */
  method ApplyAll(h: Hash, a: Agent, s: Startup, measure: MeasureFile, faults: Faults, ghost b: Image)
    returns (r: Option<Commit>, p: Progress)
    requires a.Valid() && b == View(a) && |s.allow| < U32_RANGE
    modifies a, a.maps
    ensures a.Valid() && Progressed(b, View(a), s, p) && p.pids <= |s.pids| && a.maps.matched == old(a.maps.matched)
    ensures a.flags == old(a.flags) && a.pids == old(a.pids) && a.libs == old(a.libs)
    ensures a.faults >= old(a.faults) && a.maps.faults >= old(a.maps.faults)
    ensures !p.modeSet && Ready(s, measure, faults) ==> a.faults > old(a.faults)
    // each step only after all those before it
    ensures p.modeSet ==> p.lock && p.flags == s.flags && (!faults.hardening ==> Ready(s, measure, faults))
    ensures (p.pids > 0 || p.libs > 0 ==> p.modeSet) && (p.libs > 0 ==> p.pids == |s.pids|)
    ensures r.Some? && !faults.hardening ==> Sound(s, measure, faults)
    ensures r.None? && Sound(s, measure, faults) && a.maps.undoWorks && a.maps.matched
            && CanHold(a.maps, old(a.maps.outstanding) + s.libs)
            ==> a.faults > old(a.faults) || a.maps.faults > old(a.maps.faults)
    ensures r.Some? ==> Computed(h, s, measure, r.value) && r.value.policy.digests == p.digests
                        && p.lock && p.flags == s.flags && p.modeSet && p.pids == |s.pids|
    ensures r.Some? && old(Holds(a.maps, [])) ==> Holds(a.maps, s.libs)
  {
    hide Computed, Elements, Raised, Progressed, Holds, AllMeasurable, CanHold;
    r, p := ApplyFirst(h, a, s, measure, faults, b);
    if r.None? {
      return;
    }
    var ok;
    ok, p := ApplyFlagsAndMode(a, s, p, b);
    if !ok {
      return None, p;
    }
    ok, p := ApplyLists(a, s, p, b);
    if !ok || faults.noSnapshot {
      return None, p;
    }
    assert [] + s.libs == s.libs;
  }

  method ApplyStartupPolicy(h: Hash, a: Agent, store: Store, s: Startup, measure: MeasureFile, readable: bool,
                            faults: Faults)
    returns (ok: bool, ghost modeSet: bool, ghost c: Option<Commit>)
    requires a.Valid() && |s.allow| < U32_RANGE
    modifies a, a.maps, store
    ensures a.Valid() && a.flags == old(a.flags) && a.pids == old(a.pids) && a.libs == old(a.libs)
    // success: the policy is in force, its digest and canonical snapshot are committed
    ensures ok ==> c.Some? && Computed(h, s, measure, c.value) && store.digest == Some(c.value.digest)
                   && store.snapshot == Some(Snapshot(c.value.policy)) && store.epoch == 0
    ensures ok ==> forall i, j :: 0 <= i < j < |c.value.policy.digests| ==>
      LeLex(c.value.policy.digests[i], c.value.policy.digests[j])
    ensures ok && old(Fresh(a)) ==> InForce(a, s, c.value)
    ensures ok ==> Sound(s, measure, faults)
    ensures ok && a.maps.undoWorks && old(Fresh(a)) ==> CanHold(a.maps, s.libs)
    // failure: some update failed or the policy cannot be applied; nothing is
    // committed, and working undo leaves the maps as freshly loaded
    ensures !ok && a.maps.undoWorks && old(Fresh(a)) && Sound(s, measure, faults) && CanHold(a.maps, s.libs) ==>
      a.faults > old(a.faults) || a.maps.faults > old(a.maps.faults)
    ensures !modeSet && Ready(s, measure, faults) ==> a.faults > old(a.faults)
    ensures !ok ==> unchanged(store)
    ensures !ok && a.maps.undoWorks && old(Fresh(a)) ==> Fresh(a)
    ensures !ok && a.maps.undoWorks && old(Fresh(a)) ==>
      a.kernelMode == if modeSet && !readable then s.mode else old(a.kernelMode)
    ensures !ok && a.maps.undoWorks && old(Fresh(a)) ==>
      (a.kernelMode == old(a.kernelMode) <==> readable || !modeSet || s.mode == old(a.kernelMode))
    ensures modeSet ==> a.mode == a.kernelMode && Ready(s, measure, faults)
  {
    hide Fresh, InForce, Computed, PidSet, LibSet, Elements, Raised, Lowered, Progressed, Undone;
    hide Holds, Maps.Valid, Ready, CanHold, LeLex;
    modeSet, c := false, None;
    ghost var wasFresh := Fresh(a);
    if wasFresh { FreshMaps(a); }
    if Ready(s, measure, faults) { ReadyStart(s, measure, faults); }
    var canon := CanonicalizePids(s.pids, false);
    if |canon.value| > MAX_PIDS || faults.hardening {
      return false, false, None;
    }
    ghost var b := View(a);
    assert [] + s.libs == s.libs;
    var previous := if readable then Some(a.kernelMode) else None;
    var commit, p := ApplyAll(h, a, s, measure, faults, b);
    modeSet := p.modeSet;
    if commit.None? {
      RollBack(a, s, p, previous, b);
      if wasFresh && a.maps.undoWorks {
        FreshAgain(a, s, p, previous, b);
        UndoneMode(a, s, p, previous, b);
      }
      return false, modeSet, None;
    }
    c := commit;
    if wasFresh {
      FreshImage(a, s, commit.value, p, b);
      if a.maps.undoWorks { HeldCanReturn(a.maps, s.libs); }
    }
    ProgressedMode(a, s, p, b);
    CommitInOrder(h, s, measure, c.value);
    var libs := CanonicalizeLibs(s.libs, false);
    assert c.value.policy.pids == s.pids && c.value.policy.libs == s.libs by { CommitLists(h, s, measure, c.value); }
    store.snapshot := Some(commit.value.policy.(pids := canon.value, libs := libs.value));
    store.digest := Some(commit.value.digest);
    store.epoch := 0;
    ok := true;
  }

  /**
   A startup from MONITOR to ENFORCE that runs out of memory at the last step,
   when the old mode could not be read: everything is taken back but the mode.
   */
  method UnreadModeStays(h: Hash, a: Agent, store: Store) returns (ok: bool)
    requires a.Valid() && Fresh(a) && a.maps.undoWorks && a.kernelMode == MONITOR
    modifies a, a.maps, store
    ensures !ok && unchanged(store) && Fresh(a)
    ensures a.faults == old(a.faults) ==> a.kernelMode == ENFORCE
  {
    hide Fresh, Agent.Valid;
    var s := Startup(ENFORCE, NO_FLAGS, [], [], []);
    ghost var modeSet, c;
    ok, modeSet, c := ApplyStartupPolicy(h, a, store, s, _ => None, false, Faults(false, false, false, true));
  }

  lemma ReadyStart(s: Startup, measure: MeasureFile, f: Faults)
    requires Ready(s, measure, f)
    ensures |PidSet(s.pids)| <= MAX_PIDS && !f.hardening
  {
    hide Increasing;
  }

  lemma CommitLists(h: Hash, s: Startup, measure: MeasureFile, c: Commit)
    requires Computed(h, s, measure, c)
    ensures c.policy.pids == s.pids && c.policy.libs == s.libs
  {
  }

  lemma UndoneMode(a: Agent, s: Startup, p: Progress, previous: Option<U32>, b: Image)
    requires p.pids <= |s.pids| && Undone(b, View(a), s, p, previous)
    ensures a.kernelMode == if p.modeSet && previous.None? then s.mode else b.kernelMode
  {
  }

  lemma ProgressedMode(a: Agent, s: Startup, p: Progress, b: Image)
    requires Progressed(b, View(a), s, p)
    ensures p.modeSet ==> a.mode == a.kernelMode
  {
  }
}
