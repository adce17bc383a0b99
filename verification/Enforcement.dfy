/**
 The agent's enforcement state, in memory and in the kernel's maps, and the
 fallible map updates of src/agent/bpf_loader.c that change it.

 An update marked reliable does not fail; `maps.undoWorks` says whether the
 updates that undo others are reliable.
 */
module Enforcement {
  import opened ByteCodec
  import opened Canonical
  import opened DigestInputs
  import opened PolicyDigest
  import opened TrustMaps

  const MONITOR := 0
  const ENFORCE := 1
  const MAINTENANCE := 2

  datatype Cfg = StrictMmap | StrictExec | BlockPtrace | StrictModules | BlockAnonExec

  const NO_FLAGS := Flags(false, false, false, false, false)

  function Get(f: Flags, c: Cfg): bool {
    match c
    case StrictMmap => f.strictMmap
    case StrictExec => f.strictExec
    case BlockPtrace => f.blockPtrace
    case StrictModules => f.strictModules
    case BlockAnonExec => f.blockAnonExec
  }

  function Put(f: Flags, c: Cfg, on: bool): (r: Flags)
    ensures Get(r, c) == on && forall d :: d != c ==> Get(r, d) == Get(f, d)
  {
    match c
    case StrictMmap => f.(strictMmap := on)
    case StrictExec => f.(strictExec := on)
    case BlockPtrace => f.(blockPtrace := on)
    case StrictModules => f.(strictModules := on)
    case BlockAnonExec => f.(blockAnonExec := on)
  }

  lemma FlagsEqual(a: Flags, b: Flags)
    requires forall c :: Get(a, c) == Get(b, c)
    ensures a == b
  {
    assert Get(a, StrictMmap) == Get(b, StrictMmap) && Get(a, StrictExec) == Get(b, StrictExec);
    assert Get(a, BlockPtrace) == Get(b, BlockPtrace) && Get(a, StrictModules) == Get(b, StrictModules);
    assert Get(a, BlockAnonExec) == Get(b, BlockAnonExec);
  }

  class Agent {
    // the kernel's maps
    const maps: Maps
    var kernelMode: U32
    var kernelFlags: Flags
    var kernelLock: bool
    var kernelPids: set<U32>
    var allowlist: set<Verity>

    // memory
    var mode: U32
    var flags: Flags
    var pids: seq<U32>
    var libs: seq<Path>

    // how many map updates have failed
    ghost var faults: nat

    ghost predicate Valid()
      reads this, maps
    {
      maps.Valid() && kernelMode <= MAINTENANCE
    }

    /** Memory and kernel agree on the mode and on every flag. */
    ghost predicate InStep()
      reads this
    {
      mode == kernelMode && flags == kernelFlags
    }

    constructor (maps: Maps, kernelMode: U32, mode: U32)
      requires maps.Valid() && kernelMode <= MAINTENANCE
      ensures Valid() && this.maps == maps && this.kernelMode == kernelMode && this.mode == mode
      ensures kernelFlags == flags == NO_FLAGS && !kernelLock && kernelPids == {} && allowlist == {}
      ensures pids == [] && libs == [] && faults == 0
    {
      this.maps, this.kernelMode, this.mode := maps, kernelMode, mode;
      kernelFlags, flags, kernelLock := NO_FLAGS, NO_FLAGS, false;
      kernelPids, allowlist, pids, libs, faults := {}, {}, [], [], 0;
    }

    method SetConfig(c: Cfg, on: bool, reliable: bool) returns (ok: bool)
      modifies this`kernelFlags, this`faults
      ensures faults == old(faults) + if ok then 0 else 1
      ensures kernelFlags == if ok then Put(old(kernelFlags), c, on) else old(kernelFlags)
      ensures reliable ==> ok
    {
      ok := *;
      ok := ok || reliable;
      if ok {
        kernelFlags := Put(kernelFlags, c, on);
      } else {
        faults := faults + 1;
      }
    }

    method SetLock(on: bool, reliable: bool) returns (ok: bool)
      modifies this`kernelLock, this`faults
      ensures faults == old(faults) + if ok then 0 else 1
      ensures kernelLock == if ok then on else old(kernelLock)
      ensures reliable ==> ok
    {
      ok := *;
      ok := ok || reliable;
      if ok {
        kernelLock := on;
      } else {
        faults := faults + 1;
      }
    }

    /** Refuses an unknown mode. */
    method SetMode(m: U32, reliable: bool) returns (ok: bool)
      modifies this`kernelMode, this`faults
      ensures faults == old(faults) + if ok || m > MAINTENANCE then 0 else 1
      ensures kernelMode == if ok then m else old(kernelMode)
      ensures ok ==> m <= MAINTENANCE
      ensures reliable && m <= MAINTENANCE ==> ok
    {
      if m > MAINTENANCE {
        return false;
      }
      ok := *;
      ok := ok || reliable;
      if ok {
        kernelMode := m;
      } else {
        faults := faults + 1;
      }
    }

    method Protect(pid: U32, reliable: bool) returns (ok: bool)
      modifies this`kernelPids, this`faults
      ensures faults == old(faults) + if ok then 0 else 1
      ensures kernelPids == if ok then old(kernelPids) + {pid} else old(kernelPids)
      ensures reliable ==> ok
    {
      ok := *;
      ok := ok || reliable;
      if ok {
        kernelPids := kernelPids + {pid};
      } else {
        faults := faults + 1;
      }
    }

    /** Deleting an absent key fails, and changes nothing. */
    method Unprotect(pid: U32, reliable: bool)
      modifies this`kernelPids
      ensures kernelPids == old(kernelPids) || kernelPids == old(kernelPids) - {pid}
      ensures reliable ==> kernelPids == old(kernelPids) - {pid}
    {
      var ok: bool := *;
      if pid in kernelPids && (ok || reliable) {
        kernelPids := kernelPids - {pid};
      }
    }

    method Allow(d: Verity) returns (ok: bool)
      modifies this`allowlist, this`faults
      ensures faults == old(faults) + if ok || |d| != VERITY_SIZE then 0 else 1
      ensures allowlist == if ok then old(allowlist) + {d} else old(allowlist)
      ensures ok ==> |d| == VERITY_SIZE
    {
      if |d| != VERITY_SIZE {
        return false;
      }
      ok := *;
      if ok {
        allowlist := allowlist + {d};
      } else {
        faults := faults + 1;
      }
    }

    method Disallow(d: Verity, reliable: bool)
      modifies this`allowlist
      ensures allowlist == old(allowlist) || allowlist == old(allowlist) - {d}
      ensures reliable && |d| == VERITY_SIZE ==> allowlist == old(allowlist) - {d}
    {
      if |d| != VERITY_SIZE {
        return;
      }
      var ok: bool := *;
      if d in allowlist && (ok || reliable) {
        allowlist := allowlist - {d};
      }
    }

    /** Protects a list of PIDs up to the first failure. */
    method ProtectEach(list: seq<U32>) returns (applied: nat)
      modifies this`kernelPids, this`faults
      ensures faults >= old(faults) && (applied < |list| ==> faults > old(faults))
      ensures applied <= |list| && kernelPids == old(kernelPids) + Elements(list[..applied])
    {
      applied := 0;
      while applied < |list|
        invariant faults == old(faults)
        invariant applied <= |list| && kernelPids == old(kernelPids) + Elements(list[..applied])
      {
        var ok := Protect(list[applied], false);
        if !ok {
          return;
        }
        applied := applied + 1;
        assert list[..applied] == list[..applied - 1] + [list[applied - 1]];
      }
    }

    /** Protects every PID of a list, whatever the results. */
    method ProtectAll(list: seq<U32>)
      modifies this`kernelPids, this`faults
      ensures faults >= old(faults)
      ensures maps.undoWorks ==> kernelPids == old(kernelPids) + Elements(list)
    {
      for k := 0 to |list|
        invariant faults >= old(faults)
        invariant maps.undoWorks ==> kernelPids == old(kernelPids) + Elements(list[..k])
      {
        var _ := Protect(list[k], maps.undoWorks);
        assert list[..k + 1] == list[..k] + [list[k]];
      }
      assert list[..|list|] == list;
    }

    /** Unprotects every PID of a list, whatever the results. */
    method UnprotectAll(list: seq<U32>)
      modifies this`kernelPids
      ensures maps.undoWorks ==> kernelPids == old(kernelPids) - Elements(list)
    {
      for k := 0 to |list|
        invariant maps.undoWorks ==> kernelPids == old(kernelPids) - Elements(list[..k])
      {
        Unprotect(list[k], maps.undoWorks);
        assert list[..k + 1] == list[..k] + [list[k]];
      }
      assert list[..|list|] == list;
    }
  }
}
