/**
 The debounce table for event-driven re-measurement (rt_remeasure_due in
 src/agent/event.c): 1024 slots, least-recently-measured eviction.

 The table is compared with an unbounded map from PID to the time of its last
 re-measure. Timestamps are the kernel's 64-bit nanoseconds, and the source's
 unsigned subtraction wraps.
 */
module Remeasure {
  import opened ByteCodec

  const SLOTS := 1024
  const COOLDOWN_NS := 1_000_000_000

  datatype Slot = Slot(pid: U32, last: U64, used: bool)

  /** An event answered "due": the PID was re-measured then. */
  datatype Grant = Grant(pid: U32, at: U64)

  datatype Event = Event(pid: U32, now: U64)

  /** Unsigned 64-bit now - last < COOLDOWN, with wrap-around when now is behind. */
  predicate Cooling(last: U64, now: U64) {
    ((now as int) - (last as int)) % 0x1_0000_0000_0000_0000 < COOLDOWN_NS
  }

  /** Less than a second since the last re-measure; a timestamp behind the last one counts as 2^64 later. */
  lemma CoolingMeans(last: U64, now: U64)
    ensures Cooling(last, now) <==>
            (now as int) - last + (if last <= now then 0 else 0x1_0000_0000_0000_0000) < 1_000_000_000
  {
  }

  // ----- the unbounded reference

  predicate Due(seen: map<U32, U64>, e: Event) {
    e.pid in seen ==> !Cooling(seen[e.pid], e.now)
  }

  function Mark(seen: map<U32, U64>, e: Event): map<U32, U64> {
    if Due(seen, e) then seen[e.pid := e.now] else seen
  }

  // ----- the slot table as a value

  ghost predicate Tracked(t: seq<Slot>, pid: U32) {
    exists i :: 0 <= i < |t| && t[i].used && t[i].pid == pid
  }

  /** The slot the scan ends with: the first free one, else the first that no other is older than. */
  ghost predicate IsVictim(t: seq<Slot>, v: int) {
    && 0 <= v < |t|
    && (forall i :: 0 <= i < v ==> t[i].used && (t[v].used ==> t[v].last < t[i].last))
    && (t[v].used ==> forall i :: 0 <= i < |t| ==> t[i].used && t[v].last <= t[i].last)
  }

  ghost predicate Distinct(t: seq<Slot>) {
    forall i, j :: 0 <= i < j < |t| && t[i].used && t[j].used ==> t[i].pid != t[j].pid
  }

  /** The answer given from slot i: a tracked PID's own slot decides, an untracked PID takes the victim. */
  ghost predicate AnswersAt(t: seq<Slot>, e: Event, t': seq<Slot>, due: bool, i: int) {
    && 0 <= i < |t|
    && (if t[i].used && t[i].pid == e.pid then due == !Cooling(t[i].last, e.now)
        else !Tracked(t, e.pid) && IsVictim(t, i) && due)
    && t' == if due then t[i := Slot(e.pid, e.now, true)] else t
  }

  ghost predicate Answers(t: seq<Slot>, e: Event, t': seq<Slot>, due: bool) {
    exists i :: AnswersAt(t, e, t', due, i)
  }

  // ----- at most 1024 PIDs: the table is the map

  /** The used slots hold exactly the map's entries. */
  ghost predicate Mirrors(t: seq<Slot>, seen: map<U32, U64>) {
    && Distinct(t)
    && (forall i :: 0 <= i < |t| && t[i].used ==> t[i].pid in seen && seen[t[i].pid] == t[i].last)
    && (forall p :: p in seen ==> Tracked(t, p))
  }

  /** A table whose slots are all used holds as many PIDs as slots. */
  lemma {:induction false} FullTableCount(t: seq<Slot>, pids: set<U32>)
    requires Distinct(t) && forall i :: 0 <= i < |t| ==> t[i].used && t[i].pid in pids
    ensures |t| <= |pids|
  {
    if t == [] {
    } else {
      var last := t[|t| - 1].pid;
      FullTableCount(t[..|t| - 1], pids - {last});
    }
  }

  /** Writing e's PID into its own slot, or into a free one when it is new, writes it into the map. */
  lemma PutMirrors(t: seq<Slot>, seen: map<U32, U64>, e: Event, v: nat)
    requires Mirrors(t, seen) && v < |t|
    requires if t[v].used then t[v].pid == e.pid else e.pid !in seen
    ensures Mirrors(t[v := Slot(e.pid, e.now, true)], seen[e.pid := e.now])
  {
    var t' := t[v := Slot(e.pid, e.now, true)];
    assert t'[v].used && t'[v].pid == e.pid;
    forall p | p in seen && p != e.pid ensures Tracked(t', p) {
      assert Tracked(t, p);
      var k :| 0 <= k < |t| && t[k].used && t[k].pid == p;
      assert t'[k].used && t'[k].pid == p;
    }
  }

  lemma MirrorStep(t: seq<Slot>, seen: map<U32, U64>, e: Event, t': seq<Slot>, due: bool)
    requires Mirrors(t, seen) && Answers(t, e, t', due)
    requires |seen.Keys + {e.pid}| <= |t|
    ensures due == Due(seen, e)
    ensures Mirrors(t', Mark(seen, e))
  {
    var i :| AnswersAt(t, e, t', due, i);
    if t[i].used && t[i].pid == e.pid {
      PutMirrors(t, seen, e, i);
    } else {
      assert e.pid !in seen;
      if t[i].used {
        FullTableCount(t, seen.Keys);
        assert false;
      }
      PutMirrors(t, seen, e, i);
    }
  }

  /** A run of the table: the states it went through and its answers. */
  ghost predicate Run(ts: seq<seq<Slot>>, events: seq<Event>, answers: seq<bool>) {
    && |ts| == |events| + 1 && |answers| == |events|
    && |ts[0]| == SLOTS && (forall i :: 0 <= i < SLOTS ==> !ts[0][i].used)
    && forall k :: 0 <= k < |events| ==> Answers(ts[k], events[k], ts[k + 1], answers[k])
  }

  function Pids(events: seq<Event>): set<U32> {
    set k | 0 <= k < |events| :: events[k].pid
  }

  function Seen(events: seq<Event>): map<U32, U64> {
    if events == [] then map[] else Mark(Seen(events[..|events| - 1]), events[|events| - 1])
  }

  lemma SeenNext(events: seq<Event>, n: nat)
    requires n < |events|
    ensures Seen(events[..n + 1]) == Mark(Seen(events[..n]), events[n])
    ensures Seen(events[..n + 1]).Keys <= Seen(events[..n]).Keys + {events[n].pid}
    ensures events[n].pid in Pids(events)
  {
    assert events[..n + 1][..n] == events[..n];
  }

  lemma RunStep(ts: seq<seq<Slot>>, events: seq<Event>, answers: seq<bool>, n: nat)
    requires Run(ts, events, answers) && n < |events|
    ensures Answers(ts[n], events[n], ts[n + 1], answers[n]) && |ts[n + 1]| == |ts[n]|
  {
  }

  lemma RunStart(ts: seq<seq<Slot>>, events: seq<Event>, answers: seq<bool>)
    requires Run(ts, events, answers)
    ensures |ts[0]| == SLOTS && Mirrors(ts[0], map[]) && Accounted(ts[0], [])
  {
  }

  /** The table mirrors the map after every event, and answers the next one like it. */
  lemma {:induction false} MirrorRun(ts: seq<seq<Slot>>, events: seq<Event>, answers: seq<bool>, n: nat)
    requires Run(ts, events, answers) && n <= |events|
    requires |Pids(events)| <= SLOTS
    ensures |ts[n]| == SLOTS && Seen(events[..n]).Keys <= Pids(events)
    ensures Mirrors(ts[n], Seen(events[..n]))
    ensures n > 0 ==> answers[n - 1] == Due(Seen(events[..n - 1]), events[n - 1])
  {
    hide Mirrors, Answers, Due, Mark, Pids, Accounted;
    if n == 0 {
      RunStart(ts, events, answers);
      assert events[..0] == [];
    } else {
      var k := n - 1;
      MirrorRun(ts, events, answers, k);
      SeenNext(events, k);
      RunStep(ts, events, answers, k);
      var before := Seen(events[..k]);
      Subset(before.Keys + {events[k].pid}, Pids(events));
      MirrorStep(ts[k], before, events[k], ts[n], answers[k]);
    }
  }

  lemma Subset(a: set<U32>, b: set<U32>)
    requires a <= b
    ensures |a| <= |b|
  {
    assert b == a + (b - a);
  }

  /** In a run over at most 1024 distinct PIDs every answer is the unbounded map's answer. */
  lemma AnswersLikeUnboundedMap(ts: seq<seq<Slot>>, events: seq<Event>, answers: seq<bool>, k: nat)
    requires Run(ts, events, answers) && k < |events|
    requires |Pids(events)| <= SLOTS
    ensures answers[k] == Due(Seen(events[..k]), events[k])
  {
    MirrorRun(ts, events, answers, k + 1);
  }

  // ----- more PIDs: an early re-measure costs 1024 others

  /** The grants of the first n events. */
  function Grants(events: seq<Event>, answers: seq<bool>, n: nat): (g: seq<Grant>)
    requires n <= |events| == |answers|
  {
    if n == 0 then []
    else Grants(events, answers, n - 1) + if answers[n - 1] then [Grant(events[n - 1].pid, events[n - 1].now)] else []
  }

  /** PIDs other than p granted at or after t. */
  ghost function Others(log: seq<Grant>, p: U32, t: int): set<U32> {
    set k | 0 <= k < |log| && log[k].pid != p && log[k].at >= t :: log[k].pid
  }

  ghost predicate Ordered(events: seq<Event>) {
    forall j, k :: 0 <= j < k < |events| ==> events[j].now <= events[k].now
  }

  /** Every used slot is some grant. */
  ghost predicate Backed(t: seq<Slot>, log: seq<Grant>) {
    forall i :: 0 <= i < |t| && t[i].used ==> Grant(t[i].pid, t[i].last) in log
  }

  ghost predicate Holds(t: seq<Slot>, g: Grant) {
    exists i :: 0 <= i < |t| && t[i].used && t[i].pid == g.pid && g.at <= t[i].last
  }

  /** The grant's PID still has a slot, or 1024 other PIDs have been granted since. */
  ghost predicate Settled(t: seq<Slot>, log: seq<Grant>, g: Grant) {
    Holds(t, g) || |Others(log, g.pid, g.at)| >= SLOTS
  }

  ghost predicate Accounted(t: seq<Slot>, log: seq<Grant>) {
    && |t| == SLOTS && Distinct(t) && Backed(t, log)
    && forall g :: g in log ==> Settled(t, log, g)
  }

  /** The PIDs of the first n slots, without p. */
  ghost function OtherPids(t: seq<Slot>, n: nat, p: U32): set<U32>
    requires n <= |t|
  {
    if n == 0 then {} else OtherPids(t, n - 1, p) + if t[n - 1].pid == p then {} else {t[n - 1].pid}
  }

  lemma {:induction false} OtherPidsHeld(t: seq<Slot>, n: nat, p: U32, q: U32)
    requires n <= |t| && q in OtherPids(t, n, p)
    ensures q != p && exists i :: 0 <= i < n && t[i].pid == q
  {
    if q in OtherPids(t, n - 1, p) {
      OtherPidsHeld(t, n - 1, p, q);
    }
  }

  lemma OneMorePid(s: set<U32>, q: U32)
    requires q !in s
    ensures |s + {q}| == |s| + 1
  {
  }

  /** A slot's PID is not among those of the slots before it. */
  lemma NewPid(t: seq<Slot>, n: nat, p: U32)
    requires Distinct(t) && n < |t| && forall i :: 0 <= i < |t| ==> t[i].used
    ensures t[n].pid !in OtherPids(t, n, p)
  {
    hide OtherPids;
    if t[n].pid in OtherPids(t, n, p) {
      OtherPidsHeld(t, n, p, t[n].pid);
    }
  }

  /** All slots but one hold another PID than slot v does. */
  lemma {:induction false} SlotPids(t: seq<Slot>, n: nat, v: nat)
    requires Distinct(t) && n <= |t| && v < |t| && forall i :: 0 <= i < |t| ==> t[i].used
    ensures |OtherPids(t, n, t[v].pid)| == if v < n then n - 1 else n
  {
    if n == 0 {
    } else {
      SlotPids(t, n - 1, v);
      NewPid(t, n - 1, t[v].pid);
      OneMorePid(OtherPids(t, n - 1, t[v].pid), t[n - 1].pid);
    }
  }

  /** Slots no older than `since` stand for grants no older than that. */
  lemma {:induction false} SlotsAreGrants(t: seq<Slot>, n: nat, log: seq<Grant>, p: U32, since: int)
    requires n <= |t| && Backed(t, log) && forall i :: 0 <= i < |t| ==> t[i].used && t[i].last >= since
    ensures OtherPids(t, n, p) <= Others(log, p, since)
  {
    if n == 0 {
    } else {
      SlotsAreGrants(t, n - 1, log, p, since);
      var s := t[n - 1];
      assert Grant(s.pid, s.last) in log;
      var k :| 0 <= k < |log| && log[k] == Grant(s.pid, s.last);
      assert s.pid != p ==> log[k].pid in Others(log, p, since);
    }
  }

  lemma OthersGrow(log: seq<Grant>, g: Grant, p: U32, t: int)
    ensures Others(log, p, t) <= Others(log + [g], p, t)
    ensures |Others(log, p, t)| <= |Others(log + [g], p, t)|
    ensures g.pid != p && g.at >= t ==> g.pid in Others(log + [g], p, t)
  {
    var log' := log + [g];
    forall q | q in Others(log, p, t) ensures q in Others(log', p, t) {
      var k :| 0 <= k < |log| && log[k].pid != p && log[k].at >= t && log[k].pid == q;
      assert log'[k] == log[k];
    }
    assert log'[|log|] == g;
    Subset(Others(log, p, t), Others(log', p, t));
  }

  /** Evicting a full table's oldest slot accounts for every grant of the evicted PID. */
  lemma EvictionIsPaid(t: seq<Slot>, v: int, log: seq<Grant>, e: Event, g: Grant)
    requires |t| == SLOTS && Distinct(t) && Backed(t, log) && !Tracked(t, e.pid)
    requires IsVictim(t, v) && t[v].used && g.pid == t[v].pid && g.at <= t[v].last <= e.now
    ensures |Others(log + [Grant(e.pid, e.now)], g.pid, g.at)| >= SLOTS
  {
    hide Others;
    var s := OtherPids(t, |t|, g.pid);
    SlotPids(t, |t|, v);
    SlotsAreGrants(t, |t|, log, g.pid, g.at);
    if e.pid in s {
      OtherPidsHeld(t, |t|, g.pid, e.pid);
    }
    OthersGrow(log, Grant(e.pid, e.now), g.pid, g.at);
    Subset(s + {e.pid}, Others(log + [Grant(e.pid, e.now)], g.pid, g.at));
  }

  /** After the write at slot v, a grant settled before is settled still. */
  lemma StaysSettled(t: seq<Slot>, v: int, log: seq<Grant>, e: Event, g: Grant)
    requires |t| == SLOTS && Distinct(t) && Backed(t, log) && Settled(t, log, g)
    requires 0 <= v < |t| && (t[v].used ==> t[v].last <= e.now)
    requires (t[v].used && t[v].pid == e.pid) || (!Tracked(t, e.pid) && IsVictim(t, v))
    ensures Settled(t[v := Slot(e.pid, e.now, true)], log + [Grant(e.pid, e.now)], g)
  {
    var t' := t[v := Slot(e.pid, e.now, true)];
    OthersGrow(log, Grant(e.pid, e.now), g.pid, g.at);
    if Holds(t, g) {
      var i :| 0 <= i < |t| && t[i].used && t[i].pid == g.pid && g.at <= t[i].last;
      if i != v {
        assert t'[i].used && t'[i].pid == g.pid && g.at <= t'[i].last;
      } else if t[v].pid == e.pid {
        assert t'[v].used && t'[v].pid == g.pid && g.at <= t'[v].last;
      } else {
        EvictionIsPaid(t, v, log, e, g);
      }
    }
  }

  lemma AccountedStep(t: seq<Slot>, log: seq<Grant>, e: Event, t': seq<Slot>, due: bool)
    requires Accounted(t, log) && Answers(t, e, t', due)
    requires forall g :: g in log ==> g.at <= e.now
    ensures Accounted(t', if due then log + [Grant(e.pid, e.now)] else log)
  {
    var v :| AnswersAt(t, e, t', due, v);
    if due {
      var log' := log + [Grant(e.pid, e.now)];
      assert log'[|log|] == Grant(e.pid, e.now) && t'[v].used;
      assert t[v].used ==> Grant(t[v].pid, t[v].last) in log;
      forall i | 0 <= i < |t'| && t'[i].used ensures Grant(t'[i].pid, t'[i].last) in log' {
        assert i != v ==> Grant(t[i].pid, t[i].last) in log;
      }
      forall g | g in log' ensures Settled(t', log', g) {
        if g in log {
          StaysSettled(t, v, log, e, g);
        } else {
          assert t'[v].used && t'[v].pid == g.pid && g.at <= t'[v].last;
        }
      }
    }
  }

  lemma {:induction false} GrantsUpTo(events: seq<Event>, answers: seq<bool>, n: nat, t: int)
    requires n <= |events| == |answers| && forall j :: 0 <= j < n ==> events[j].now <= t
    ensures forall g :: g in Grants(events, answers, n) ==> g.at <= t
  {
    if n == 0 {
    } else {
      GrantsUpTo(events, answers, n - 1, t);
    }
  }

  lemma {:induction false} AccountedRun(ts: seq<seq<Slot>>, events: seq<Event>, answers: seq<bool>, n: nat)
    requires Run(ts, events, answers) && n <= |events| && Ordered(events)
    ensures Accounted(ts[n], Grants(events, answers, n))
  {
    hide Accounted, Answers, Mirrors;
    RunStart(ts, events, answers);
    if n == 0 {
    } else {
      AccountedRun(ts, events, answers, n - 1);
      RunStep(ts, events, answers, n - 1);
      var log, e, due := Grants(events, answers, n - 1), events[n - 1], answers[n - 1];
      GrantsUpTo(events, answers, n - 1, e.now);
      AccountedStep(ts[n - 1], log, e, ts[n], due);
      assert Grants(events, answers, n) == if due then log + [Grant(e.pid, e.now)] else log;
    }
  }

  /**
   With non-decreasing timestamps, a PID granted again within its cooldown has
   seen at least 1024 other PIDs granted at timestamps between its two grants.
   */
  lemma EarlyRemeasureNeedsManyOthers(ts: seq<seq<Slot>>, events: seq<Event>, answers: seq<bool>, j: nat, k: nat)
    requires Run(ts, events, answers) && Ordered(events) && j < k < |events|
    requires answers[j] && answers[k] && events[j].pid == events[k].pid
    requires events[k].now - events[j].now < COOLDOWN_NS
    ensures var log := Grants(events, answers, k);
            && |Others(log, events[j].pid, events[j].now)| >= SLOTS
            && forall g :: g in log ==> g.at <= events[k].now
  {
    AccountedRun(ts, events, answers, k);
    GrantLogged(events, answers, j, k);
    GrantsUpTo(events, answers, k, events[k].now);
    var log, g := Grants(events, answers, k), Grant(events[j].pid, events[j].now);
    assert Settled(ts[k], log, g);
    assert Answers(ts[k], events[k], ts[k + 1], true);
    if Holds(ts[k], g) {
      StillCooling(ts[k], log, g, events[k], ts[k + 1]);
    }
  }

  /** A slot holding a recent grant answers "not due". */
  lemma StillCooling(t: seq<Slot>, log: seq<Grant>, g: Grant, e: Event, t': seq<Slot>)
    requires Distinct(t) && Backed(t, log) && Holds(t, g) && g.pid == e.pid
    requires forall h :: h in log ==> h.at <= e.now
    requires e.now - g.at < COOLDOWN_NS
    ensures !Answers(t, e, t', true)
  {
    var i :| 0 <= i < |t| && t[i].used && t[i].pid == g.pid && g.at <= t[i].last;
    assert Grant(t[i].pid, t[i].last) in log;
    assert Cooling(t[i].last, e.now);
    assert forall k :: 0 <= k < |t| && t[k].used && t[k].pid == e.pid ==> k == i;
  }

  lemma {:induction false} GrantLogged(events: seq<Event>, answers: seq<bool>, j: nat, n: nat)
    requires j < n <= |events| == |answers| && answers[j]
    ensures Grant(events[j].pid, events[j].now) in Grants(events, answers, n)
  {
    if j + 1 < n {
      GrantLogged(events, answers, j, n - 1);
    }
  }

  // ----- when a PID is due

  /** No grant to the k-th event's PID before it lies within the cooldown. */
  ghost predicate Rested(events: seq<Event>, answers: seq<bool>, k: nat)
    requires k < |events| == |answers|
  {
    forall j :: 0 <= j < k && answers[j] && events[j].pid == events[k].pid ==>
      events[k].now - events[j].now >= COOLDOWN_NS
  }

  /** Every logged grant was an event answered "due". */
  lemma {:induction false} GrantIsAnswer(events: seq<Event>, answers: seq<bool>, n: nat, g: Grant) returns (j: nat)
    requires n <= |events| == |answers| && g in Grants(events, answers, n)
    ensures j < n && answers[j] && events[j] == Event(g.pid, g.at)
  {
    if n == 0 {
      assert false;
    } else if g in Grants(events, answers, n - 1) {
      j := GrantIsAnswer(events, answers, n - 1, g);
    } else {
      j := n - 1;
    }
  }

  /** However many PIDs there are, a rested PID is due. */
  lemma RestedIsDue(ts: seq<seq<Slot>>, events: seq<Event>, answers: seq<bool>, k: nat)
    requires Run(ts, events, answers) && Ordered(events) && k < |events|
    requires Rested(events, answers, k)
    ensures answers[k]
  {
    hide Grants;
    AccountedRun(ts, events, answers, k);
    var t, e, log := ts[k], events[k], Grants(events, answers, k);
    RunStep(ts, events, answers, k);
    var i :| AnswersAt(t, e, ts[k + 1], answers[k], i);
    if t[i].used && t[i].pid == e.pid {
      var j := GrantIsAnswer(events, answers, k, Grant(t[i].pid, t[i].last));
      assert e.now - t[i].last >= COOLDOWN_NS;
    }
  }

  /** The PIDs granted are PIDs of events. */
  lemma GrantedPids(events: seq<Event>, answers: seq<bool>, n: nat, p: U32, t: int)
    requires n <= |events| == |answers|
    ensures Others(Grants(events, answers, n), p, t) <= Pids(events) - {p}
  {
    var log := Grants(events, answers, n);
    forall q | q in Others(log, p, t) ensures q in Pids(events) - {p} {
      var i :| 0 <= i < |log| && log[i].pid != p && log[i].at >= t && log[i].pid == q;
      var j := GrantIsAnswer(events, answers, n, log[i]);
      assert events[j].pid == q;
    }
  }

  /**
   In a run over at most 1024 distinct PIDs an event is answered "due" exactly
   when its PID has not been granted within the last second.
   */
  lemma DueExactlyWhenRested(ts: seq<seq<Slot>>, events: seq<Event>, answers: seq<bool>, k: nat)
    requires Run(ts, events, answers) && Ordered(events) && k < |events|
    requires |Pids(events)| <= SLOTS
    ensures answers[k] <==>
            forall j :: 0 <= j < k && answers[j] && events[j].pid == events[k].pid ==>
              events[k].now - events[j].now >= COOLDOWN_NS
  {
    if Rested(events, answers, k) {
      RestedIsDue(ts, events, answers, k);
    } else if answers[k] {
      var j :| 0 <= j < k && answers[j] && events[j].pid == events[k].pid
               && events[k].now - events[j].now < COOLDOWN_NS;
      var p, t := events[j].pid, events[j].now;
      EarlyRemeasureNeedsManyOthers(ts, events, answers, j, k);
      GrantedPids(events, answers, k, p, t);
      Subset(Others(Grants(events, answers, k), p, t), Pids(events) - {p});
      assert false;
    }
  }

  // ----- the table in memory

  class SlotTable {
    const slots: array<Slot>

    ghost predicate Valid()
      reads this, slots
    {
      slots.Length == SLOTS && Distinct(slots[..])
    }

    constructor ()
      ensures Valid() && fresh(slots)
      ensures forall i :: 0 <= i < SLOTS ==> !slots[i].used
    {
      slots := new Slot[SLOTS](_ => Slot(0, 0, false));
    }

    method RemeasureDue(pid: U32, now: U64) returns (due: bool)
      requires Valid()
      modifies slots
      ensures Valid()
      ensures Answers(old(slots[..]), Event(pid, now), slots[..], due)
    {
      ghost var t := slots[..];
      var victim := 0;
      for i := 0 to SLOTS
        invariant 0 <= victim < SLOTS && slots[..] == t
        invariant forall j :: 0 <= j < i ==> !(t[j].used && t[j].pid == pid)
        invariant t[victim].used ==> forall j :: 0 <= j < i ==> t[j].used && t[victim].last <= t[j].last
        invariant forall j :: 0 <= j < victim ==> t[j].used && (t[victim].used ==> t[victim].last < t[j].last)
      {
        if slots[i].used && slots[i].pid == pid {
          if Cooling(slots[i].last, now) {
            assert AnswersAt(t, Event(pid, now), slots[..], false, i);
            return false;
          }
          slots[i] := slots[i].(last := now);
          assert slots[..] == t[i := Slot(pid, now, true)];
          assert AnswersAt(t, Event(pid, now), slots[..], true, i);
          return true;
        }
        if !slots[victim].used {
          continue;
        }
        if !slots[i].used || slots[i].last < slots[victim].last {
          victim := i;
        }
      }
      slots[victim] := Slot(pid, now, true);
      assert slots[..] == t[victim := Slot(pid, now, true)];
      assert AnswersAt(t, Event(pid, now), slots[..], true, victim);
      due := true;
    }
  }
}
