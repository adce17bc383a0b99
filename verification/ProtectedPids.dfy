/**
 The runtime set of protected PIDs (src/agent/ipc.c): PROTECT_PID and
 UNPROTECT_PID change the kernel map first and the in-memory list second, and
 every change of the list moves the epoch.
 */
module ProtectedPids {
  import opened ByteCodec
  import opened Canonical
  import opened DigestInputs
  import opened Errors

  const MAX_PROTECTED := 1024

  // ----- the sorted PID list

  method Contains(pids: seq<U32>, pid: U32) returns (had: bool)
    ensures had <==> pid in pids
  {
    for i := 0 to |pids|
      invariant pid !in pids[..i]
    {
      if pids[i] == pid {
        return true;
      }
    }
    return false;
  }

  /** A PID inserted where the list stays increasing. */
  lemma InsertIncreasing(pids: seq<U32>, i: nat, pid: U32)
    requires Increasing(pids) && i <= |pids|
    requires i > 0 ==> pids[i - 1] < pid
    requires i < |pids| ==> pid < pids[i]
    ensures Increasing(pids[..i] + [pid] + pids[i..])
  {
    IncreasingPairs(pids);
    IncreasingPairs(pids[..i] + [pid] + pids[i..]);
  }

  /** Appends the PID and sifts it down to its place. */
  method Add(pids: seq<U32>, pid: U32, noMemory: bool) returns (r: Result<seq<U32>>)
    requires Increasing(pids)
    ensures r.Ok? <==> pid != 0 && !(noMemory && (pids != [] || pid !in pids))
    ensures r.Ok? ==> Increasing(r.value) && Elements(r.value) == Elements(pids) + {pid}
    ensures r.Ok? ==> |r.value| == |pids| + if pid in pids then 0 else 1
  {
    hide Increasing;
    if pid == 0 {
      return Err(EINVAL);
    }
    var had := Contains(pids, pid);
    if noMemory && (!had || |pids| > 0) {
      return Err(ENOMEM);
    }
    if had {
      return Ok(pids);
    }
    var a := Copy(pids, pid);
    var i := |pids|;
    while i > 0
      invariant 0 <= i <= |pids| && a[..] == pids[..i] + [pid] + pids[i..]
      invariant i < |pids| ==> pid < pids[i]
    {
      assert a[i - 1] == pids[i - 1] && a[i] == pid;
      if a[i - 1] <= a[i] {
        break;
      }
      a[i - 1], a[i] := a[i], a[i - 1];
      i := i - 1;
    }
    InsertIncreasing(pids, i, pid);
    InsertElements(pids, i, pid);
    return Ok(a[..]);
  }

  method Copy(pids: seq<U32>, pid: U32) returns (a: array<U32>)
    ensures fresh(a) && a[..] == pids[..|pids|] + [pid] + pids[|pids|..]
  {
    a := new U32[|pids| + 1](_ => 0);
    forall i | 0 <= i < |pids| {
      a[i] := pids[i];
    }
    a[|pids|] := pid;
  }

  lemma InsertElements(pids: seq<U32>, i: nat, pid: U32)
    requires i <= |pids|
    ensures Elements(pids[..i] + [pid] + pids[i..]) == Elements(pids) + {pid}
  {
    assert pids == pids[..i] + pids[i..];
  }

  ghost predicate OnlyAt(pids: seq<U32>, k: nat) {
    k < |pids| && forall j :: 0 <= j < |pids| && j != k ==> pids[j] != pids[k]
  }

  lemma OnlyOnce(pids: seq<U32>, k: nat)
    requires k < |pids| && Increasing(pids)
    ensures OnlyAt(pids, k) && Increasing(pids[..k] + pids[k + 1..])
  {
    IncreasingPairs(pids);
    IncreasingPairs(pids[..k] + pids[k + 1..]);
  }

  lemma RemoveElements(pids: seq<U32>, k: nat)
    requires OnlyAt(pids, k)
    ensures Elements(pids[..k] + pids[k + 1..]) == Elements(pids) - {pids[k]}
  {
    var r := pids[..k] + pids[k + 1..];
    forall x | x in Elements(pids) - {pids[k]} ensures x in r {
      var j :| 0 <= j < |pids| && pids[j] == x;
      assert r[if j < k then j else j - 1] == x;
    }
    forall i | 0 <= i < |r| ensures r[i] in Elements(pids) - {pids[k]} {
      assert r[i] == pids[if i < k then i else i + 1];
    }
  }

  /** Copies every other PID with a write index. */
  method Remove(pids: seq<U32>, pid: U32, noMemory: bool) returns (r: Result<seq<U32>>)
    requires Increasing(pids)
    ensures r.Ok? <==> pid != 0 && !(noMemory && if pid in pids then |pids| > 1 else pids != [])
    ensures r.Ok? ==> Increasing(r.value) && Elements(r.value) == Elements(pids) - {pid}
    ensures r.Ok? ==> |r.value| == |pids| - if pid in pids then 1 else 0
  {
    hide Increasing;
    if pid == 0 {
      return Err(EINVAL);
    }
    var had := Contains(pids, pid);
    if !had {
      if |pids| > 0 && noMemory {
        return Err(ENOMEM);
      }
      assert pid !in Elements(pids);
      return Ok(pids);
    }
    if |pids| - 1 > 0 && noMemory {
      return Err(ENOMEM);
    }
    ghost var k :| 0 <= k < |pids| && pids[k] == pid;
    OnlyOnce(pids, k);
    RemoveElements(pids, k);
    var rest := AllBut(pids, pid, k);
    return Ok(rest);
  }

  method AllBut(pids: seq<U32>, pid: U32, ghost k: nat) returns (rest: seq<U32>)
    requires OnlyAt(pids, k) && pids[k] == pid
    ensures rest == pids[..k] + pids[k + 1..]
  {
    var a := new U32[|pids| - 1](_ => 0);
    var w := 0;
    for i := 0 to |pids|
      invariant w == if i <= k then i else i - 1
      invariant a[..w] == if i <= k then pids[..i] else pids[..k] + pids[k + 1..i]
    {
      if pids[i] != pid {
        a[w] := pids[i];
        w := w + 1;
        assert a[..w] == a[..w - 1] + [pids[i]];
      }
    }
    assert a[..w] == a[..];
    return a[..];
  }

  /** A sorted copy, refused if a PID repeats. On an increasing list that is the list itself. */
  method CanonicalList(pids: seq<U32>, noMemory: bool) returns (r: Result<seq<U32>>)
    ensures r.Ok? <==> pids == [] || (!noMemory && Increasing(Sort<int>(pids, LeInt)))
    ensures r.Ok? ==> r.value == Sort<int>(pids, LeInt)
    ensures Increasing(pids) ==> Sort<int>(pids, LeInt) == pids
  {
    if Increasing(pids) { SortKeepsStrict<int>(pids, LeInt); }
    if |pids| == 0 {
      return Ok([]);
    }
    if noMemory {
      return Err(ENOMEM);
    }
    r := CheckedSort(pids);
  }

  method CheckedSort(pids: seq<U32>) returns (r: Result<seq<U32>>)
    requires pids != []
    ensures r.Ok? <==> Increasing(Sort<int>(pids, LeInt))
    ensures r.Ok? ==> r.value == Sort<int>(pids, LeInt)
  {
    hide Increasing, Sort;
    var canon := Sort<int>(pids, LeInt);
    SortedPids(pids);
    assert Increasing(canon[..1]) by { IncreasingPairs(canon[..1]); }
    for i := 1 to |canon|
      invariant Increasing(canon[..i])
    {
      IncreasingNext(canon, i);
      if canon[i - 1] == canon[i] {
        if Increasing(canon) { IncreasingPrefix(canon, i + 1); }
        return Err(EINVAL);
      }
    }
    assert canon[..|canon|] == canon;
    return Ok(canon);
  }

  lemma SortedPids(pids: seq<U32>)
    requires pids != []
    ensures var s := Sort<int>(pids, LeInt);
            && s != [] && (forall i :: 0 <= i < |s| ==> 0 <= s[i] < U32_RANGE)
            && forall i, j :: 0 <= i < j < |s| ==> s[i] <= s[j]
  {
    hide Sort;
    var s := Sort<int>(pids, LeInt);
    IntOrder();
    SortSorts<int>(pids, LeInt);
    SortPermutes<int>(pids, LeInt);
    SortedInts(s);
    assert pids[0] in multiset(pids);
    forall i | 0 <= i < |s| ensures 0 <= s[i] < U32_RANGE {
      assert s[i] in multiset(s);
    }
  }

  lemma {:induction false} SortedInts(s: seq<int>)
    requires Sorted<int>(s, LeInt)
    ensures forall i, j :: 0 <= i < j < |s| ==> s[i] <= s[j]
  {
    if |s| < 2 {
    } else {
      SortedInts(s[1..]);
      assert LeInt(s[0], s[1]);
      assert forall j :: 0 < j < |s| ==> s[j] == s[1..][j - 1];
    }
  }

  // ----- runs of the runtime policy

  /** What a GET_TOKEN reply carries of the runtime policy. */
  datatype Policy = Policy(pids: seq<U32>, epoch: U64)

  ghost predicate Kept(p: Policy) {
    Increasing(p.pids) && |p.pids| <= MAX_PROTECTED
  }

  /** One PID joins or leaves. */
  ghost predicate Toggled(p: Policy, q: Policy, pid: U32) {
    Elements(q.pids) == if pid in p.pids then Elements(p.pids) - {pid} else Elements(p.pids) + {pid}
  }

  ghost predicate Changed(p: Policy, q: Policy) {
    q.epoch == p.epoch + 1 && exists pid :: Toggled(p, q, pid)
  }

  ghost predicate Step(p: Policy, q: Policy) {
    Kept(q) && (q == p || Changed(p, q))
  }

  ghost predicate StepAt(run: seq<Policy>, i: nat)
    requires i + 1 < |run|
  {
    Step(run[i], run[i + 1])
  }

  ghost predicate IsRun(run: seq<Policy>) {
    run != [] && Kept(run[0]) && forall i :: 0 <= i < |run| - 1 ==> StepAt(run, i)
  }

  lemma ToggledDiffers(p: Policy, q: Policy, pid: U32)
    requires Toggled(p, q, pid)
    ensures p.pids != q.pids
  {
    assert pid in Elements(p.pids) <==> pid !in Elements(q.pids);
  }

  lemma Extend(run: seq<Policy>, q: Policy)
    requires IsRun(run) && Step(run[|run| - 1], q)
    ensures IsRun(run + [q])
  {
    hide Step, Kept;
    var longer := run + [q];
    forall i | 0 <= i < |longer| - 1 ensures StepAt(longer, i) {
      if i < |run| - 1 { assert StepAt(run, i); }
    }
  }

  lemma {:induction false} RunKept(run: seq<Policy>, i: nat)
    requires IsRun(run) && i < |run|
    ensures Kept(run[i])
  {
    if i > 0 { assert StepAt(run, i - 1); }
  }

  /** How often the PID list changes between two points of a run. */
  ghost function Changes(run: seq<Policy>, i: nat, j: nat): nat
    requires i <= j < |run|
  {
    if i == j then 0 else Changes(run, i, j - 1) + if run[j - 1].pids == run[j].pids then 0 else 1
  }

  /** The epoch counts the changes of the list: it rises by one with each and never otherwise. */
  lemma {:induction false} EpochCountsChanges(run: seq<Policy>, i: nat, j: nat)
    requires IsRun(run) && i <= j < |run|
    ensures run[j].epoch == run[i].epoch + Changes(run, i, j)
  {
    if i == j {
    } else {
      EpochCountsChanges(run, i, j - 1);
      assert StepAt(run, j - 1);
      var p, q := run[j - 1], run[j];
      if q != p {
        var pid :| Toggled(p, q, pid);
        ToggledDiffers(p, q, pid);
      }
    }
  }

  /** One epoch, one PID list, however the run went in between. */
  lemma {:induction false} EpochNamesTheList(run: seq<Policy>, i: nat, j: nat)
    requires IsRun(run) && i <= j < |run| && run[i].epoch == run[j].epoch
    ensures run[i] == run[j]
  {
    if i == j {
    } else {
      EpochCountsChanges(run, i, j - 1);
      assert StepAt(run, j - 1);
      EpochNamesTheList(run, i, j - 1);
    }
  }

  // ----- PROTECT_PID and UNPROTECT_PID

  datatype Code = BadRequest | AccessDenied | RateLimited | Internal

  /** Success carries the startup policy digest and the size of the list. */
  datatype Reply = Error(code: Code) | Updated(digest: Digest, count: U32)

  /** Which of the fallible calls fail: the map update, the allocation of the new list, the undo. */
  datatype Faults = Faults(kernel: bool, memory: bool, undo: bool)

  class RuntimePolicy {
    var snapshotSet: bool
    var digestSet: bool
    const digest: Digest
    var pids: seq<U32>
    var epoch: U64

    // the keys of the kernel's protected_pids map
    var kernel: set<U32>

    // every policy since startup, and those that GET_TOKEN replies carried
    ghost var history: seq<Policy>
    ghost var tokens: seq<Policy>

    // no undo of a half-done update has failed
    ghost var intact: bool

    ghost function Current(): Policy
      reads this
    {
      Policy(pids, epoch)
    }

    /** The history is a run up to now, and every token carried a policy of it. */
    ghost predicate Running()
      reads this
    {
      && IsRun(history) && history[|history| - 1] == Current()
      && forall i :: 0 <= i < |tokens| ==> tokens[i] in history
    }

    ghost predicate Valid()
      reads this
    {
      Running() && (intact ==> kernel == Elements(pids))
    }

    /** The committed startup policy: epoch 0 and the canonical startup PIDs, all in the kernel map. */
    constructor (startup: seq<U32>, digest: Digest)
      requires Increasing(startup) && |startup| <= MAX_PROTECTED
      ensures Valid() && Current() == Policy(startup, 0) && snapshotSet && digestSet
      ensures kernel == Elements(startup) && tokens == [] && intact && this.digest == digest
    {
      this.digest := digest;
      snapshotSet, digestSet := true, true;
      pids, epoch := startup, 0;
      kernel := set p | p in startup;
      history := [Policy(startup, 0)];
      tokens := [];
      intact := true;
    }

    /** The request reaches the PID set. */
    ghost predicate Admitted(payload: Bytes, add: bool, access: bool, limited: bool)
      reads this
    {
      && |payload| >= 4 && ReadLe32(payload, 0) != 0
      && access && !(add && limited) && snapshotSet && digestSet
    }

    /** The request would change the list, and there is an epoch and a slot for that. */
    ghost predicate Feasible(pid: U32, add: bool)
      reads this
    {
      (pid in pids <==> !add) && epoch < U64_MAX && (add ==> |pids| < MAX_PROTECTED)
    }

    /** The kernel map takes the update: a deletion also fails on a missing key. */
    ghost predicate KernelTakes(pid: U32, add: bool, faults: Faults)
      reads this
    {
      !faults.kernel && (add || pid in kernel)
    }

    /** The new list can be allocated; dropping the last PID needs no memory. */
    ghost predicate MemoryTakes(add: bool, faults: Faults)
      reads this
    {
      !faults.memory || (!add && |pids| <= 1)
    }

    lemma CurrentKept()
      requires Running()
      ensures Increasing(pids) && |pids| <= MAX_PROTECTED
    {
      RunKept(history, |history| - 1);
    }

    /** GET_TOKEN replies with one epoch carry one PID list. */
    lemma TokensAgree(i: nat, j: nat)
      requires Running() && i < |tokens| && j < |tokens|
      requires tokens[i].epoch == tokens[j].epoch
      ensures tokens[i].pids == tokens[j].pids
    {
      var a :| 0 <= a < |history| && history[a] == tokens[i];
      var b :| 0 <= b < |history| && history[b] == tokens[j];
      if a <= b {
        EpochNamesTheList(history, a, b);
      } else {
        EpochNamesTheList(history, b, a);
      }
    }

    /** A reply was sent with the current list and epoch. */
    ghost method Issue()
      requires Valid()
      modifies this`tokens
      ensures Valid() && tokens == old(tokens) + [Current()]
    {
      tokens := tokens + [Current()];
    }

    /** The list is as it was; the run goes on. */
    method Refuse(code: Code) returns (reply: Reply)
      requires Running()
      modifies this`history
      ensures Running() && history == old(history) + [Current()] && reply == Error(code)
    {
      Stay();
      reply := Error(code);
    }

    ghost method Stay()
      requires Running()
      modifies this`history
      ensures Running() && history == old(history) + [Current()]
    {
      RunKept(history, |history| - 1);
      Extend(history, Current());
      history := history + [Current()];
    }

    /** bpf_loader_protect_pid and bpf_loader_unprotect_pid. */
    method KernelUpdate(pid: U32, add: bool, fails: bool) returns (ok: bool)
      modifies this`kernel
      ensures ok <==> !fails && (add || pid in old(kernel))
      ensures kernel == if !ok then old(kernel) else if add then old(kernel) + {pid} else old(kernel) - {pid}
    {
      ok := !fails && (add || pid in kernel);
      if ok {
        kernel := if add then kernel + {pid} else kernel - {pid};
      }
    }

    method Commit(list: seq<U32>, ghost pid: U32)
      requires Running() && epoch < U64_MAX
      requires Increasing(list) && |list| <= MAX_PROTECTED && Toggled(Current(), Policy(list, epoch), pid)
      modifies this`pids, this`epoch, this`history
      ensures Running() && history == old(history) + [Current()] && Current() == Policy(list, old(epoch) + 1)
    {
      assert Toggled(Current(), Policy(list, epoch + 1), pid);
      Extend(history, Policy(list, epoch + 1));
      pids, epoch := list, epoch + 1;
      history := history + [Current()];
    }

    /** The new list, computed from the current one. */
    method NewList(pid: U32, add: bool, noMemory: bool) returns (r: Result<seq<U32>>)
      requires Running() && pid != 0 && (pid in pids <==> !add) && (add ==> |pids| < MAX_PROTECTED)
      ensures r.Ok? <==> !noMemory || (!add && |pids| <= 1)
      ensures r.Ok? ==> Increasing(r.value) && |r.value| <= MAX_PROTECTED
      ensures r.Ok? ==> Elements(r.value) == if add then Elements(pids) + {pid} else Elements(pids) - {pid}
    {
      hide Increasing, IsRun, Elements;
      assert Increasing(pids) && |pids| <= MAX_PROTECTED by { CurrentKept(); }
      if add {
        r := Add(pids, pid, noMemory);
      } else {
        r := Remove(pids, pid, noMemory);
      }
    }

    /** An admitted request, from the look-up on. */
    method Apply(pid: U32, add: bool, faults: Faults) returns (reply: Reply)
      requires Valid() && pid != 0
      modifies this
      ensures Valid() && history == old(history) + [Current()] && tokens == old(tokens)
      ensures snapshotSet == old(snapshotSet) && digestSet == old(digestSet)
      ensures reply.Updated? <==>
        old((pid in pids <==> add)
            || (Feasible(pid, add) && KernelTakes(pid, add, faults) && MemoryTakes(add, faults)))
      ensures reply.Updated? ==>
        Elements(pids) == (if add then old(Elements(pids)) + {pid} else old(Elements(pids)) - {pid})
        && reply.digest == digest && reply.count == |pids|
      ensures reply.Error? ==> Current() == old(Current())
      ensures reply.Updated? ==> epoch == old(epoch) + if old(pid in pids <==> add) then 0 else 1
      ensures reply == Error(BadRequest) <==> old(add && pid !in pids && epoch < U64_MAX && |pids| >= MAX_PROTECTED)
      ensures reply.Updated? || reply.code in {BadRequest, Internal}
      ensures intact == (old(intact) &&
        !(old(Feasible(pid, add) && KernelTakes(pid, add, faults) && !MemoryTakes(add, faults)) && faults.undo))
      ensures old(kernel == Elements(pids)) ==>
        (kernel == Elements(pids) <==>
         !(old(Feasible(pid, add) && KernelTakes(pid, add, faults) && !MemoryTakes(add, faults)) && faults.undo))
    {
      hide IsRun, Increasing;
      var had := Contains(pids, pid);
      assert |pids| <= MAX_PROTECTED by { CurrentKept(); }
      if had == add {
        Stay();
        assert pid in Elements(pids) <==> add;
        return Updated(digest, |pids|);
      }
      if epoch == U64_MAX {
        reply := Refuse(Internal);
        return;
      }
      if add && |pids| + 1 > MAX_PROTECTED {
        reply := Refuse(BadRequest);
        return;
      }
      var ok := KernelUpdate(pid, add, faults.kernel);
      if !ok {
        reply := Refuse(Internal);
        return;
      }
      var list := NewList(pid, add, faults.memory);
      if list.Err? {
        var _ := KernelUpdate(pid, !add, faults.undo);
        intact := intact && !faults.undo;
        reply := Refuse(Internal);
        return;
      }
      Commit(list.value, pid);
      return Updated(digest, |pids|);
    }

    method ProtectPidUpdate(payload: Bytes, add: bool, access: bool, limited: bool, faults: Faults)
      returns (reply: Reply)
      requires Valid()
      modifies this
      ensures Valid() && history == old(history) + [Current()] && tokens == old(tokens)
      ensures snapshotSet == old(snapshotSet) && digestSet == old(digestSet)
      // the answer
      ensures reply.Updated? <==>
        old(Admitted(payload, add, access, limited)) && var pid := ReadLe32(payload, 0);
        old((pid in pids <==> add)
            || (Feasible(pid, add) && KernelTakes(pid, add, faults) && MemoryTakes(add, faults)))
      ensures reply.Updated? ==> |payload| >= 4 && access && !(add && limited) && old(snapshotSet && digestSet)
      // the epoch: one more exactly when the list changes
      ensures reply.Updated? ==> epoch == old(epoch) + if old(ReadLe32(payload, 0) in pids <==> add) then 0 else 1
      // the list
      ensures reply.Updated? ==> var pid := ReadLe32(payload, 0);
        Elements(pids) == (if add then old(Elements(pids)) + {pid} else old(Elements(pids)) - {pid})
        && reply.digest == digest && reply.count == |pids|
      ensures reply.Error? ==> Current() == old(Current())
      // the refusals
      ensures reply == Error(AccessDenied) <==> |payload| >= 4 && ReadLe32(payload, 0) != 0 && !access
      ensures reply == Error(RateLimited) <==> |payload| >= 4 && ReadLe32(payload, 0) != 0 && access && add && limited
      ensures reply == Error(BadRequest) <==>
        || |payload| < 4 || ReadLe32(payload, 0) == 0
        || old(Admitted(payload, add, access, limited) && add && ReadLe32(payload, 0) !in pids && epoch < U64_MAX
               && |pids| >= MAX_PROTECTED)
      // the kernel map keeps step, unless the undo of a half-done update fails
      ensures intact == (old(intact) &&
        !(old(Admitted(payload, add, access, limited)) && var pid := ReadLe32(payload, 0);
          old(Feasible(pid, add) && KernelTakes(pid, add, faults) && !MemoryTakes(add, faults)) && faults.undo))
      ensures old(kernel == Elements(pids)) ==>
        (kernel == Elements(pids) <==>
         !(old(Admitted(payload, add, access, limited)) && var pid := ReadLe32(payload, 0);
           old(Feasible(pid, add) && KernelTakes(pid, add, faults) && !MemoryTakes(add, faults)) && faults.undo))
    {
      if |payload| < 4 {
        reply := Refuse(BadRequest);
        return;
      }
      var pid := ReadLe32(payload, 0);
      if pid == 0 {
        reply := Refuse(BadRequest);
        return;
      }
      if !access {
        reply := Refuse(AccessDenied);
        return;
      }
      if add && limited {
        reply := Refuse(RateLimited);
        return;
      }
      if !snapshotSet || !digestSet {
        reply := Refuse(Internal);
        return;
      }
      reply := Apply(pid, add, faults);
    }
  }
}
