/**
 SIGHUP reload (src/agent/reload.c): the mode, the enforcement flags, the
 protected PIDs and the trusted libraries change to what the new configuration
 says, each as a transaction of its own over maps whose updates may fail.
 */
module Reload {
  import opened ByteCodec
  import opened Canonical
  import opened Enforcement
  import opened PolicyDigest
  import opened TrustMaps
  import opened TrustedLibs

  /** The parsed configuration; a mode that does not parse is None. */
  datatype Config = Config(mode: Option<U32>, flags: Flags, pids: seq<U32>, libs: seq<Path>)

  // ----- flags

  lemma PutSame(f: Flags, c: Cfg)
    ensures Put(f, c, Get(f, c)) == f
  {
  }

  /** Writes one flag to the kernel if it differs, and to memory if that worked. */
  method ApplyFlag(a: Agent, c: Cfg, want: bool, reliable: bool) returns (ok: bool)
    modifies a`kernelFlags, a`flags, a`faults
    ensures old(a.flags == a.kernelFlags) ==> a.flags == a.kernelFlags
    ensures a.flags == if ok then Put(old(a.flags), c, want) else old(a.flags)
    ensures reliable ==> ok
    ensures a.faults == old(a.faults) + if ok then 0 else 1
    ensures want == Get(old(a.flags), c) ==> ok && a.kernelFlags == old(a.kernelFlags)
  {
    PutSame(a.flags, c);
    ok := true;
    if want != Get(a.flags, c) {
      ok := a.SetConfig(c, want, reliable);
      if ok {
        a.flags := Put(a.flags, c, want);
      }
    }
  }

  /** Applies the flags in order until one fails. */
  method ApplyFlags(a: Agent, want: Flags) returns (ok: bool)
    modifies a`kernelFlags, a`flags, a`faults
    ensures old(a.flags == a.kernelFlags) ==> a.flags == a.kernelFlags
    ensures ok ==> a.flags == want
    ensures a.faults == old(a.faults) + if ok then 0 else 1
    ensures forall c :: Get(a.flags, c) == Get(old(a.flags), c) || Get(a.flags, c) == Get(want, c)
  {
    hide Get, Put;
    ok := ApplyFlag(a, StrictMmap, Get(want, StrictMmap), false);
    if ok { ok := ApplyFlag(a, BlockPtrace, Get(want, BlockPtrace), false); }
    if ok { ok := ApplyFlag(a, StrictExec, Get(want, StrictExec), false); }
    if ok { ok := ApplyFlag(a, StrictModules, Get(want, StrictModules), false); }
    if ok { ok := ApplyFlag(a, BlockAnonExec, Get(want, BlockAnonExec), false); }
    if ok { FlagsEqual(a.flags, want); }
  }

  /** Puts back every flag that differs from before. */
  method RestoreFlags(a: Agent, before: Flags)
    modifies a`kernelFlags, a`flags, a`faults
    ensures old(a.flags == a.kernelFlags) ==> a.flags == a.kernelFlags
    ensures a.maps.undoWorks ==> a.flags == before
    ensures a.faults >= old(a.faults)
    ensures forall c :: Get(a.flags, c) == Get(old(a.flags), c) || Get(a.flags, c) == Get(before, c)
  {
    hide Get, Put;
    var _ := ApplyFlag(a, StrictMmap, Get(before, StrictMmap), a.maps.undoWorks);
    var _ := ApplyFlag(a, BlockPtrace, Get(before, BlockPtrace), a.maps.undoWorks);
    var _ := ApplyFlag(a, StrictExec, Get(before, StrictExec), a.maps.undoWorks);
    var _ := ApplyFlag(a, StrictModules, Get(before, StrictModules), a.maps.undoWorks);
    var _ := ApplyFlag(a, BlockAnonExec, Get(before, BlockAnonExec), a.maps.undoWorks);
    if a.maps.undoWorks { FlagsEqual(a.flags, before); }
  }

  /**
   apply_runtime_flags_transactional: all flags, or none because an update
   failed, and memory never differs from the kernel.
   */
  method FlagsTransaction(a: Agent, want: Flags) returns (ok: bool)
    modifies a`kernelFlags, a`flags, a`faults
    ensures old(a.flags == a.kernelFlags) ==> a.flags == a.kernelFlags
    ensures ok ==> a.flags == want
    ensures !ok ==> a.faults > old(a.faults)
    ensures a.faults >= old(a.faults)
    ensures !ok && a.maps.undoWorks ==> a.flags == old(a.flags)
    ensures forall c :: Get(a.flags, c) == Get(old(a.flags), c) || Get(a.flags, c) == Get(want, c)
  {
    hide Get, Put;
    var before := a.flags;
    ok := ApplyFlags(a, want);
    if !ok {
      RestoreFlags(a, before);
    }
  }

  // ----- protected PIDs

  lemma TakeBack(k: set<U32>, o: set<U32>, n: set<U32>)
    ensures k - o + n - n + o == (k - n) + o
    ensures (k - n) + o == k <==> o <= k && k * n <= o
  {
    assert forall x :: x in (k - n) + o <==> (x in k && x !in n) || x in o;
    if (k - n) + o == k {
      forall x | x in k * n ensures x in o {
        assert x in (k - n) + o;
      }
    }
  }

  /**
   reload_protected_pids. `applied` counts the new PIDs that were protected
   before a failure; after one, the kernel set is as before exactly when the
   old PIDs were in it and none of those new ones was in it on another account.
   */
  method ReloadPids(a: Agent, wanted: seq<U32>, noMemory: bool) returns (ok: bool, ghost applied: nat)
    modifies a`kernelPids, a`pids, a`faults
    ensures a.faults >= old(a.faults) && (!ok ==> a.faults > old(a.faults) || (noMemory && wanted != []))
    ensures noMemory && wanted != [] ==> !ok
    ensures applied <= |wanted| && a.pids == if ok then wanted else old(a.pids)
    ensures ok && a.maps.undoWorks ==> a.kernelPids == old(a.kernelPids) - Elements(old(a.pids)) + Elements(wanted)
    ensures !ok && a.maps.undoWorks ==>
      a.kernelPids == old(a.kernelPids) - Elements(wanted[..applied]) + Elements(old(a.pids))
    ensures !ok && a.maps.undoWorks ==>
      (a.kernelPids == old(a.kernelPids) <==>
       Elements(old(a.pids)) <= old(a.kernelPids)
       && old(a.kernelPids) * Elements(wanted[..applied]) <= Elements(old(a.pids)))
  {
    hide Elements;
    ghost var k := a.kernelPids;
    a.UnprotectAll(a.pids);
    applied := 0;
    assert Elements(wanted[..0]) == {} by { NoElements(wanted[..0]); }
    if |wanted| > 0 {
      if noMemory {
        a.ProtectAll(a.pids);
        TakeBack(k, Elements(a.pids), {});
        return false, 0;
      }
      var done := a.ProtectEach(wanted);
      applied := done;
      if done < |wanted| {
        a.UnprotectAll(wanted[..done]);
        a.ProtectAll(a.pids);
        TakeBack(k, Elements(a.pids), Elements(wanted[..done]));
        return false, applied;
      }
      assert wanted[..done] == wanted;
    } else {
      NoElements(wanted);
    }
    a.pids := wanted;
    ok := true;
  }

  /**
   A PID protected on another account, here one the agent does not list, is
   lost by a reload that lists it first and fails on a later one.
   */
  method OtherPidIsLost(a: Agent, pid: U32, more: seq<U32>) returns (ok: bool, ghost applied: nat)
    requires a.maps.undoWorks && a.pids == [] && a.kernelPids == {pid}
    modifies a`kernelPids, a`pids, a`faults
    ensures !ok && applied > 0 ==> pid !in a.kernelPids && a.pids == []
  {
    ok, applied := ReloadPids(a, [pid] + more, false);
    if applied > 0 {
      assert ([pid] + more)[..applied][0] == pid;
    }
  }

  lemma NoElements(s: seq<U32>)
    requires s == []
    ensures Elements(s) == {}
  {
  }

  lemma FewerElements(s: seq<U32>, n: nat)
    requires n <= |s|
    ensures Elements(s[..n]) <= Elements(s)
  {
  }

  // ----- the whole reload

  datatype Outcome = Refused | Done(flags: bool, pids: bool, libs: bool)

  /** An ENFORCE configuration may be left only with a signature. */
  predicate NeedsSignature(mode: U32, wanted: Option<U32>) {
    mode == ENFORCE && (wanted == Some(MONITOR) || wanted == Some(MAINTENANCE))
  }

  method ReloadMode(a: Agent, wanted: Option<U32>)
    modifies a`kernelMode, a`mode, a`faults
    ensures wanted.Some? && wanted.value <= MAINTENANCE ==> a.mode == wanted.value || a.faults > old(a.faults)
    ensures a.faults >= old(a.faults)
    ensures old(a.mode == a.kernelMode) ==> a.mode == a.kernelMode
    ensures a.mode == old(a.mode) || (Some(a.mode) == wanted && a.mode <= MAINTENANCE)
    ensures a.kernelMode == old(a.kernelMode) || a.kernelMode <= MAINTENANCE
  {
    if wanted.Some? && wanted.value != a.mode {
      var ok := a.SetMode(wanted.value, false);
      if ok {
        a.mode := wanted.value;
      }
    }
  }

  /** agent_reload_config, from the parsed configuration on. */
  method ReloadConfig(a: Agent, cfg: Option<Config>, signed: bool, noMemory: bool) returns (r: Outcome)
    requires a.Valid()
    modifies a, a.maps
    ensures a.Valid() && (old(a.InStep()) ==> a.InStep())
    // the mode
    ensures old(a.mode) == ENFORCE && a.mode != ENFORCE ==> signed
    // a refused reload changes nothing
    ensures r.Refused? <==>
      || cfg.None?
      || (old(a.mode) == ENFORCE && cfg.value.mode in {Some(MONITOR), Some(MAINTENANCE)} && !signed)
    ensures r.Refused? ==> unchanged(a) && unchanged(a.maps)
    // each part is the new one, or the old one because something failed
    ensures r.Done? && cfg.value.mode.Some? && cfg.value.mode.value <= MAINTENANCE ==>
      a.mode == cfg.value.mode.value || a.faults > old(a.faults)
    ensures r.Done? && !r.flags ==> a.faults > old(a.faults)
    ensures r.Done? && !r.pids ==> a.faults > old(a.faults) || (noMemory && cfg.value.pids != [])
    ensures r.Done? && noMemory && cfg.value.pids != [] ==> !r.pids
    ensures r.Done? && !r.libs && old(Holds(a.maps, a.libs)) ==>
      a.maps.faults > old(a.maps.faults) || !CanHold(a.maps, cfg.value.libs)
    ensures r.Done? ==> a.mode == old(a.mode) || Some(a.mode) == cfg.value.mode
    ensures a.faults >= old(a.faults) && a.maps.faults >= old(a.maps.faults)
    ensures r.Done? ==> a.pids == if r.pids then cfg.value.pids else old(a.pids)
    ensures r.Done? && r.pids && a.maps.undoWorks ==>
      a.kernelPids == old(a.kernelPids) - Elements(old(a.pids)) + Elements(cfg.value.pids)
    ensures r.Done? && !r.pids && a.maps.undoWorks
            && old(Elements(a.pids) <= a.kernelPids && a.kernelPids * Elements(cfg.value.pids) <= Elements(a.pids))
            ==> a.kernelPids == old(a.kernelPids)
    ensures r.Done? && r.flags ==> a.flags == cfg.value.flags
    ensures r.Done? && !r.flags && a.maps.undoWorks ==> a.flags == old(a.flags)
    ensures r.Done? && r.libs ==> a.libs == cfg.value.libs
    ensures old(Holds(a.maps, a.libs)) ==> Holds(a.maps, a.libs)
    ensures r.Done? && !r.libs && old(Holds(a.maps, a.libs)) ==>
      a.libs == old(a.libs) && a.maps.libs == old(a.maps.libs) && a.maps.mounts == old(a.maps.mounts)
  {
    hide Elements, Get, Put, Holds, CanHold, Maps.Valid;
    if cfg.None? {
      return Refused;
    }
    var c := cfg.value;
    if NeedsSignature(a.mode, c.mode) && !signed {
      return Refused;
    }
    ReloadMode(a, c.mode);
    var flagsOk := FlagsTransaction(a, c.flags);
    var pidsOk, applied := ReloadPids(a, c.pids, noMemory);
    FewerElements(c.pids, applied);
    var now, libsOk := ReloadLibs(a.maps, a.libs, c.libs);
    a.libs := now;
    return Done(flagsOk, pidsOk, libsOk);
  }
}
