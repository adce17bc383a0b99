/**
 The agent's whole life as the enforcement state sees it: startup
 (src/agent/main.c), then a reload for every SIGHUP (src/agent/daemon_loop.c).
 */
module Lifetime {
  import opened ByteCodec
  import opened Canonical
  import opened DigestInputs
  import opened Enforcement
  import opened PolicyDigest
  import opened Reload
  import opened StartupPolicy
  import opened TrustMaps
  import opened TrustedLibs

  /** One SIGHUP: the configuration found, whether its signature verifies, whether memory runs out. */
  datatype Hup = Hup(config: Option<Config>, signed: bool, noMemory: bool)

  /** A policy in force leaves the agent in step, and the runtime PID list ready for its first epoch. */
  lemma StartsInStep(h: Hash, a: Agent, s: Startup, measure: MeasureFile, c: Commit)
    requires InForce(a, s, c) && Computed(h, s, measure, c) && a.flags == s.flags
    ensures a.InStep()
    ensures var list := Snapshot(c.policy).pids;
            Increasing(list) && |list| <= PolicyDigest.MAX_PIDS && a.kernelPids == Elements(list)
  {
    hide Holds, PolicyInput, Increasing, LibSet;
  }

  /** What the agent's memory says, and how many map operations have failed so far. */
  datatype Memory = Memory(mode: U32, flags: Flags, pids: seq<U32>, libs: seq<Path>, failed: nat)

  ghost function Remembered(a: Agent): Memory
    reads a, a.maps
  {
    Memory(a.mode, a.flags, a.pids, a.libs, a.faults + a.maps.faults)
  }

  ghost predicate Refuses(m: Memory, hup: Hup) {
    || hup.config.None?
    || (m.mode == ENFORCE && hup.config.value.mode in {Some(MONITOR), Some(MAINTENANCE)} && !hup.signed)
  }

  /**
   One SIGHUP. A refused one changes nothing. Any other leaves every part new
   or old, and all of them new if no operation failed, memory sufficed and the
   libraries can be held (`holdable`). The flags and the libraries can be
   anything in between only where an undo failed.
   */
  ghost predicate Reloaded(m: Memory, n: Memory, hup: Hup, undoWorks: bool, holdable: bool) {
    if Refuses(m, hup) then n == m
    else
      var c := hup.config.value;
      && n.failed >= m.failed
      && (n.mode == m.mode || Some(n.mode) == c.mode) && (n.pids == m.pids || n.pids == c.pids)
      && (undoWorks ==> (n.flags == m.flags || n.flags == c.flags) && (n.libs == m.libs || n.libs == c.libs))
      && (n.failed == m.failed ==>
            && n.flags == c.flags && n.pids == (if hup.noMemory && c.pids != [] then m.pids else c.pids)
            && (c.mode.Some? && c.mode.value <= MAINTENANCE ==> n.mode == c.mode.value)
            && (undoWorks && holdable ==> n.libs == c.libs))
  }

  /** If the i-th SIGHUP leaves ENFORCE, it was signed. */
  ghost predicate SignedExit(modes: seq<U32>, hups: seq<Hup>, i: nat)
    requires i < |hups| && i + 1 < |modes|
  {
    modes[i] == ENFORCE && modes[i + 1] != ENFORCE ==> hups[i].signed
  }

  ghost predicate Holdable(m: Maps, hup: Hup) {
    hup.config.Some? ==> CanHold(m, hup.config.value.libs)
  }

  /** agent_reload_config on one SIGHUP. */
  method Sighup(a: Agent, hup: Hup) returns (r: Outcome)
    requires a.Valid() && (a.maps.undoWorks ==> Holds(a.maps, a.libs))
    modifies a, a.maps
    ensures a.Valid() && (old(a.InStep()) ==> a.InStep()) && (a.maps.undoWorks ==> Holds(a.maps, a.libs))
    ensures old(a.mode) == ENFORCE && a.mode != ENFORCE ==> hup.signed
    ensures Reloaded(old(Remembered(a)), Remembered(a), hup, a.maps.undoWorks, Holdable(a.maps, hup))
  {
    hide Holds, CanHold, Agent.Valid, Elements;
    r := ReloadConfig(a, hup.config, hup.signed, hup.noMemory);
  }

  /**
   Over every life of the agent, whatever updates fail and whatever rollbacks
   fail: the mode and flags in memory are those in the kernel, and every SIGHUP
   that leaves ENFORCE is one whose signature verified. Where undo works, the
   trusted-library maps hold exactly the agent's list. `modes` are the modes
   after startup and after each SIGHUP, and `lives` all that memory holds then.
   */
  method Live(h: Hash, a: Agent, store: Store, allow: seq<Path>, measure: MeasureFile, readable: bool,
              faults: Faults, hups: seq<Hup>) returns (started: bool, ghost modes: seq<U32>, ghost lives: seq<Memory>)
    requires a.Valid() && Fresh(a) && |allow| < U32_RANGE
    modifies a, a.maps, store
    ensures started ==> a.Valid() && a.InStep() && (a.maps.undoWorks ==> Holds(a.maps, a.libs))
    ensures started ==> |modes| == |hups| + 1 && modes[0] == old(a.mode) && modes[|hups|] == a.mode
    ensures started ==> forall i :: 0 <= i < |hups| ==> SignedExit(modes, hups, i)
    ensures started ==> |lives| == |hups| + 1 && lives[|hups|] == Remembered(a)
    ensures started ==> lives[0] == old(Remembered(a)).(failed := lives[0].failed)
    ensures started ==> forall i :: 0 <= i < |hups| ==>
      Reloaded(lives[i], lives[i + 1], hups[i], a.maps.undoWorks, Holdable(a.maps, hups[i]))
  {
    hide CanHold, Reloaded;
    hide Holds, Computed, InForce, Fresh, Agent.Valid;
    var s := Startup(a.mode, a.flags, a.pids, a.libs, allow);
    ghost var modeSet, c;
    started, modeSet, c := ApplyStartupPolicy(h, a, store, s, measure, readable, faults);
    modes, lives := [], [];
    if !started {
      return;
    }
    StartsInStep(h, a, s, measure, c.value);
    assert (a.maps.undoWorks ==> Holds(a.maps, a.libs)) && a.mode == s.mode by { Forces(a, s, c.value); }
    modes, lives := [a.mode], [Remembered(a)];
    for i := 0 to |hups|
      invariant a.Valid() && a.InStep() && (a.maps.undoWorks ==> Holds(a.maps, a.libs))
      invariant |modes| == i + 1 && modes[0] == old(a.mode) && modes[i] == a.mode
      invariant forall j :: 0 <= j < i ==> SignedExit(modes, hups, j)
      invariant |lives| == i + 1 && lives[i] == Remembered(a)
      invariant lives[0] == old(Remembered(a)).(failed := lives[0].failed)
      invariant forall j :: 0 <= j < i ==>
        Reloaded(lives[j], lives[j + 1], hups[j], a.maps.undoWorks, Holdable(a.maps, hups[j]))
    {
      var _ := Sighup(a, hups[i]);
      lives := lives + [Remembered(a)];
      ghost var before := modes;
      modes := modes + [a.mode];
      assert forall j :: 0 <= j < i ==> SignedExit(before, hups, j) ==> SignedExit(modes, hups, j);
    }
  }

  lemma Forces(a: Agent, s: Startup, c: Commit)
    requires InForce(a, s, c)
    ensures (a.maps.undoWorks ==> Holds(a.maps, s.libs)) && a.mode == s.mode
  {
  }
}
