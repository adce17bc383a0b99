/**
 The per-UID fixed-window rate limiter of the IPC server (check_rate_limit in
 src/agent/ipc.c): a 256-entry table that recycles only expired entries.

 The table is related to an unbounded reference limiter, one window per UID,
 and every bound on grants is proved of the reference.
 */
module RateLimiter {
  import opened ByteCodec

  datatype Grant = Grant(uid: nat, at: nat)

  /** One UID's current window: requests granted in it and the second it began. */
  datatype Window = Window(count: nat, start: nat)

  // ----- the unbounded reference limiter

  predicate Live(ws: map<nat, Window>, uid: nat, now: nat, length: nat) {
    uid in ws && ws[uid].start <= now < ws[uid].start + length
  }

  predicate Allows(ws: map<nat, Window>, uid: nat, now: nat, limit: nat, length: nat) {
    Live(ws, uid, now, length) ==> ws[uid].count < limit
  }

  function Admit(ws: map<nat, Window>, g: Grant, length: nat): map<nat, Window> {
    ws[g.uid := if Live(ws, g.uid, g.at, length) then Window(ws[g.uid].count + 1, ws[g.uid].start)
                else Window(1, g.at)]
  }

  /** The reference state after a sequence of grants. */
  function Replay(log: seq<Grant>, length: nat): map<nat, Window> {
    if log == [] then map[] else Admit(Replay(log[..|log| - 1], length), log[|log| - 1], length)
  }

  /** Grants in non-decreasing time order, each one allowed by the reference when it was made. */
  ghost predicate Accepted(log: seq<Grant>, limit: nat, length: nat) {
    log != [] ==>
      var before, g := log[..|log| - 1], log[|log| - 1];
      && Accepted(before, limit, length)
      && Allows(Replay(before, length), g.uid, g.at, limit, length)
      && (before != [] ==> before[|before| - 1].at <= g.at)
  }

  /** How many grants went to `uid` at seconds lo <= t < hi. */
  function Count(log: seq<Grant>, uid: nat, lo: int, hi: int): nat {
    if log == [] then 0
    else
      var g := log[|log| - 1];
      Count(log[..|log| - 1], uid, lo, hi) + if g.uid == uid && lo <= g.at < hi then 1 else 0
  }

  /** No grant is later than the last one, and no window begins later. */
  lemma {:induction false} NothingAfterLast(log: seq<Grant>, uid: nat, lo: int, hi: int, limit: nat, length: nat)
    requires Accepted(log, limit, length) && log != []
    ensures lo > log[|log| - 1].at ==> Count(log, uid, lo, hi) == 0
    ensures uid in Replay(log, length) ==> Replay(log, length)[uid].start <= log[|log| - 1].at
  {
    if |log| == 1 {
    } else {
      NothingAfterLast(log[..|log| - 1], uid, lo, hi, limit, length);
    }
  }

  /** What the window of `uid` says about the grants in the interval of one window length from t. */
  ghost predicate Bounded(log: seq<Grant>, uid: nat, t: int, limit: nat, length: nat) {
    var c, ws := Count(log, uid, t, t + length), Replay(log, length);
    if uid !in ws then c == 0
    else
      && 1 <= ws[uid].count <= limit
      && (t > ws[uid].start ==> c <= ws[uid].count - 1)
      && (ws[uid].start - length < t <= ws[uid].start ==> c <= limit - 1 + ws[uid].count)
      && (t <= ws[uid].start - length ==> c <= 2 * limit - 1)
  }

  lemma {:induction false} AcceptedIsBounded(log: seq<Grant>, uid: nat, t: int, limit: nat, length: nat)
    requires 0 < limit && 0 < length
    requires Accepted(log, limit, length)
    ensures Bounded(log, uid, t, limit, length)
  {
    if log == [] {
    } else {
      var before := log[..|log| - 1];
      AcceptedIsBounded(before, uid, t, limit, length);
      if before != [] {
        NothingAfterLast(before, uid, t, t + length, limit, length);
      }
    }
  }

  /** At most 2 * limit - 1 grants per UID in any half-open interval of one window length. */
  lemma GrantsPerWindow(log: seq<Grant>, uid: nat, t: int, limit: nat, length: nat)
    requires 0 < limit && 0 < length
    requires Accepted(log, limit, length)
    ensures Count(log, uid, t, t + length) <= 2 * limit - 1
  {
    AcceptedIsBounded(log, uid, t, limit, length);
  }

  // ----- the bound is attained

  function Burst(uid: nat, at: nat, n: nat): (log: seq<Grant>)
    ensures |log| == n
  {
    if n == 0 then [] else Burst(uid, at, n - 1) + [Grant(uid, at)]
  }

  lemma CountOne(log: seq<Grant>, g: Grant, uid: nat, lo: int, hi: int)
    ensures Count(log + [g], uid, lo, hi) == Count(log, uid, lo, hi) + if g.uid == uid && lo <= g.at < hi then 1 else 0
  {
    assert (log + [g])[..|log|] == log;
  }

  /** A burst inside a live window is accepted while the window has room, and is counted in full. */
  lemma {:induction false} BurstAccepted(log: seq<Grant>, uid: nat, at: nat, n: nat, lo: int, hi: int,
                                         limit: nat, length: nat)
    requires Accepted(log, limit, length) && log != [] && log[|log| - 1].at <= at
    requires Live(Replay(log, length), uid, at, length)
    requires Replay(log, length)[uid].count + n <= limit
    requires lo <= at < hi
    ensures var all := log + Burst(uid, at, n);
            && Accepted(all, limit, length)
            && all[|all| - 1].at <= at
            && uid in Replay(all, length)
            && Replay(all, length)[uid] == Window(Replay(log, length)[uid].count + n, Replay(log, length)[uid].start)
            && Count(all, uid, lo, hi) == Count(log, uid, lo, hi) + n
  {
    var all := log + Burst(uid, at, n);
    if n == 0 {
      assert all == log;
    } else {
      hide Accepted, Replay, Count;
      BurstAccepted(log, uid, at, n - 1, lo, hi, limit, length);
      var init := log + Burst(uid, at, n - 1);
      Associative(log, Burst(uid, at, n - 1), [Grant(uid, at)]);
      Extend(init, Grant(uid, at), limit, length);
      CountOne(init, Grant(uid, at), uid, lo, hi);
    }
  }

  /** A grant after the window has passed opens the next one. */
  lemma NextWindow(log: seq<Grant>, uid: nat, at: nat, limit: nat, length: nat)
    requires Accepted(log, limit, length) && log != [] && log[|log| - 1].at <= at
    requires uid in Replay(log, length) && Replay(log, length)[uid].start + length <= at
    ensures Accepted(log + [Grant(uid, at)], limit, length)
    ensures uid in Replay(log + [Grant(uid, at)], length)
    ensures Replay(log + [Grant(uid, at)], length)[uid] == Window(1, at)
  {
    hide Accepted, Replay;
    Extend(log, Grant(uid, at), limit, length);
  }

  lemma CountNone(uid: nat, lo: int, hi: int)
    ensures Count([], uid, lo, hi) == 0
  {
  }

  lemma FirstGrant(uid: nat, limit: nat, length: nat) returns (log: seq<Grant>)
    requires 0 < limit && 1 < length
    ensures log == [Grant(uid, 0)] && Accepted(log, limit, length) && Replay(log, length) == map[uid := Window(1, 0)]
  {
    log := [Grant(uid, 0)];
    assert log[..0] == [];
  }

  /** One grant opens a window, limit - 1 fall on its last second, limit more on the next. */
  lemma BoundIsAttained(uid: nat, limit: nat, length: nat) returns (log: seq<Grant>)
    requires 0 < limit && 1 < length
    ensures Accepted(log, limit, length)
    ensures Count(log, uid, length - 1, 2 * length - 1) == 2 * limit - 1
  {
    var first := FirstGrant(uid, limit, length);
    hide Accepted, Replay, Count, Burst, Admit;
    CountOne([], Grant(uid, 0), uid, length - 1, 2 * length - 1);
    assert Count([], uid, length - 1, 2 * length - 1) == 0 by { CountNone(uid, length - 1, 2 * length - 1); }
    assert [] + first == first;
    BurstAccepted(first, uid, length - 1, limit - 1, length - 1, 2 * length - 1, limit, length);
    var one := first + Burst(uid, length - 1, limit - 1);
    var two := one + [Grant(uid, length)];
    NextWindow(one, uid, length, limit, length);
    CountOne(one, Grant(uid, length), uid, length - 1, 2 * length - 1);
    BurstAccepted(two, uid, length, limit - 1, length - 1, 2 * length - 1, limit, length);
    log := two + Burst(uid, length, limit - 1);
  }

  /** What a one-second window says about the grants of second t: all of its own, and no later ones. */
  ghost predicate SecondBounded(log: seq<Grant>, uid: nat, t: int, limit: nat) {
    var c, ws := Count(log, uid, t, t + 1), Replay(log, 1);
    if uid !in ws then c == 0
    else
      && 1 <= ws[uid].count <= limit && c <= limit
      && (t == ws[uid].start ==> c == ws[uid].count) && (t > ws[uid].start ==> c == 0)
  }

  /** With windows of one second, a second holds at most limit grants. */
  lemma {:induction false} OneSecondBound(log: seq<Grant>, uid: nat, t: int, limit: nat)
    requires 0 < limit && Accepted(log, limit, 1)
    ensures SecondBounded(log, uid, t, limit) && Count(log, uid, t, t + 1) <= limit
  {
    if log == [] {
    } else {
      var before := log[..|log| - 1];
      OneSecondBound(before, uid, t, limit);
      if before != [] {
        NothingAfterLast(before, uid, t, t + 1, limit, 1);
      }
    }
  }

  // ----- the 256-entry table

  const MAX_RATE_ENTRIES := 256

  datatype UidRate = UidRate(uid: nat, count: int, start: nat)

  predicate Expired(e: UidRate, now: nat, length: int) {
    now < e.start || now - e.start >= length
  }

  ghost predicate Held(t: seq<UidRate>, uid: nat) {
    exists i :: 0 <= i < |t| && t[i].uid == uid
  }

  ghost predicate Unique(t: seq<UidRate>) {
    forall i, j :: 0 <= i < j < |t| ==> t[i].uid != t[j].uid
  }

  /** Every entry is its UID's reference window; a UID without an entry has an expired window. */
  ghost predicate Agrees(t: seq<UidRate>, ws: map<nat, Window>, clock: nat, length: int) {
    && (forall i :: 0 <= i < |t| ==>
          && t[i].uid in ws
          && ws[t[i].uid].start == t[i].start <= clock
          && ws[t[i].uid].count == t[i].count)
    && (forall u :: u in ws && !Held(t, u) ==> ws[u].start + length <= clock)
  }

  /** Full of other UIDs whose windows are all still running. */
  ghost predicate Exhausted(t: seq<UidRate>, uid: nat, now: nat, length: int) {
    |t| == MAX_RATE_ENTRIES && forall i :: 0 <= i < |t| ==> t[i].uid != uid && !Expired(t[i], now, length)
  }

  /** The table mirrors the reference limiter that made the grants in `log`, at second `clock`. */
  ghost predicate Consistent(t: seq<UidRate>, log: seq<Grant>, clock: nat, limit: nat, length: nat) {
    && Accepted(log, limit, length)
    && (log != [] ==> log[|log| - 1].at <= clock)
    && Agrees(t, Replay(log, length), clock, length)
  }

  /** Rewriting one entry for `uid`, its own or an expired one, keeps the table and the reference agreeing. */
  lemma RewriteAgrees(t: seq<UidRate>, i: nat, e: UidRate, ws: map<nat, Window>, clock: nat, length: nat)
    requires Unique(t) && Agrees(t, ws, clock, length) && i < |t|
    requires t[i].uid == e.uid || (!Held(t, e.uid) && Expired(t[i], clock, length))
    requires e == if t[i].uid == e.uid && !Expired(t[i], clock, length)
                  then UidRate(e.uid, t[i].count + 1, t[i].start) else UidRate(e.uid, 1, clock)
    ensures Agrees(t[i := e], Admit(ws, Grant(e.uid, clock), length), clock, length)
  {
    var t' := t[i := e];
    assert t'[i].uid == e.uid;
    forall u | Held(t, u) && u != t[i].uid ensures Held(t', u) {
      var j :| 0 <= j < |t| && t[j].uid == u;
      assert t'[j].uid == u;
    }
  }

  /** A new UID's entry can be appended. */
  lemma AppendAgrees(t: seq<UidRate>, uid: nat, ws: map<nat, Window>, clock: nat, length: nat)
    requires Agrees(t, ws, clock, length) && !Held(t, uid)
    ensures Agrees(t + [UidRate(uid, 1, clock)], Admit(ws, Grant(uid, clock), length), clock, length)
  {
    var t' := t + [UidRate(uid, 1, clock)];
    assert t'[|t|].uid == uid;
    forall u | Held(t, u) ensures Held(t', u) {
      var j :| 0 <= j < |t| && t[j].uid == u;
      assert t'[j].uid == u;
    }
  }

  lemma Extend(log: seq<Grant>, g: Grant, limit: nat, length: nat)
    requires Accepted(log, limit, length) && (log != [] ==> log[|log| - 1].at <= g.at)
    requires Allows(Replay(log, length), g.uid, g.at, limit, length)
    ensures Accepted(log + [g], limit, length)
    ensures Replay(log + [g], length) == Admit(Replay(log, length), g, length)
  {
    assert (log + [g])[..|log|] == log;
  }

  lemma RewriteUnique(t: seq<UidRate>, i: nat, e: UidRate)
    requires Unique(t) && i < |t| && (t[i].uid == e.uid || !Held(t, e.uid))
    ensures Unique(t[i := e])
  {
  }

  lemma RewriteConsistent(t: seq<UidRate>, i: nat, e: UidRate, log: seq<Grant>, now: nat, limit: nat, length: nat)
    requires Unique(t) && Consistent(t, log, now, limit, length) && i < |t|
    requires t[i].uid == e.uid || (!Held(t, e.uid) && Expired(t[i], now, length))
    requires Expired(t[i], now, length) || t[i].count < limit
    requires e == if t[i].uid == e.uid && !Expired(t[i], now, length)
                  then UidRate(e.uid, t[i].count + 1, t[i].start) else UidRate(e.uid, 1, now)
    ensures Allows(Replay(log, length), e.uid, now, limit, length)
    ensures Consistent(t[i := e], log + [Grant(e.uid, now)], now, limit, length)
  {
    RewriteAgrees(t, i, e, Replay(log, length), now, length);
    Extend(log, Grant(e.uid, now), limit, length);
  }

  lemma AppendConsistent(t: seq<UidRate>, uid: nat, log: seq<Grant>, now: nat, limit: nat, length: nat)
    requires Consistent(t, log, now, limit, length) && !Held(t, uid)
    ensures Allows(Replay(log, length), uid, now, limit, length)
    ensures Consistent(t + [UidRate(uid, 1, now)], log + [Grant(uid, now)], now, limit, length)
  {
    AppendAgrees(t, uid, Replay(log, length), now, length);
    Extend(log, Grant(uid, now), limit, length);
  }

  /** A held UID that has used up its running window is refused by the reference too. */
  lemma SpentIsRefused(t: seq<UidRate>, i: nat, log: seq<Grant>, now: nat, limit: nat, length: nat)
    requires Consistent(t, log, now, limit, length) && i < |t|
    requires !Expired(t[i], now, length) && t[i].count >= limit
    ensures !Allows(Replay(log, length), t[i].uid, now, limit, length)
  {
  }

  /** Time passing breaks nothing. */
  lemma ClockAdvances(t: seq<UidRate>, log: seq<Grant>, clock: nat, now: nat, limit: int, length: int)
    requires 0 < limit && 0 < length && clock <= now && Consistent(t, log, clock, limit, length)
    ensures Consistent(t, log, now, limit, length)
  {
    hide Accepted, Replay, Held;
  }

  class Limiter {
    const limit: int
    const length: int
    const table: array<UidRate>
    var count: int

    /** The grants made so far, the last clock reading, and whether the clock never went back. */
    ghost var log: seq<Grant>
    ghost var clock: nat
    ghost var monotone: bool

    ghost predicate Valid()
      reads this, table
    {
      && table.Length == MAX_RATE_ENTRIES && 0 <= count <= MAX_RATE_ENTRIES
      && Unique(Entries())
      && (monotone && 0 < limit && 0 < length ==> Consistent(Entries(), log, clock, limit, length))
    }

    ghost function Entries(): seq<UidRate>
      requires 0 <= count <= table.Length
      reads this, table
    {
      table[..count]
    }

    constructor (limit: int, length: int)
      ensures Valid() && this.limit == limit && this.length == length
      ensures fresh(table) && count == 0 && log == [] && monotone && clock == 0
    {
      this.limit, this.length, count := limit, length, 0;
      table := new UidRate[MAX_RATE_ENTRIES](_ => UidRate(0, 0, 0));
      log, clock, monotone := [], 0, true;
    }

    /** Grants `uid` by rewriting entry i, its own or an expired one. */
    method Rewrite(i: int, e: UidRate)
      requires Valid() && 0 < limit && 0 < length && 0 <= i < count
      requires table[i].uid == e.uid || (!Held(Entries(), e.uid) && Expired(table[i], clock, length))
      requires Expired(table[i], clock, length) || table[i].count < limit
      requires e == if table[i].uid == e.uid && !Expired(table[i], clock, length)
                    then UidRate(e.uid, table[i].count + 1, table[i].start) else UidRate(e.uid, 1, clock)
      modifies this`log, table
      ensures Valid() && log == old(log) + [Grant(e.uid, clock)]
      ensures table[..] == old(table[..])[i := e]
      ensures monotone ==> Allows(Replay(old(log), length), e.uid, clock, limit, length)
    {
      hide Consistent, Allows, Replay;
      ghost var t := Entries();
      RewriteUnique(t, i, e);
      if monotone { RewriteConsistent(t, i, e, log, clock, limit, length); }
      table[i] := e;
      assert Entries() == t[i := e];
      log := log + [Grant(e.uid, clock)];
    }

    /** Grants a UID that has no entry, in a new one. */
    method Append(uid: nat, now: nat)
      requires now == clock && Valid() && 0 < limit && 0 < length && count < MAX_RATE_ENTRIES && !Held(Entries(), uid)
      modifies this`log, this`count, table
      ensures Valid() && log == old(log) + [Grant(uid, now)] && count == old(count) + 1
      ensures table[..] == old(table[..])[old(count) := UidRate(uid, 1, now)]
      ensures monotone ==> Allows(Replay(old(log), length), uid, now, limit, length)
    {
      hide Consistent, Allows, Replay;
      ghost var t := Entries();
      if monotone { AppendConsistent(t, uid, log, now, limit, length); }
      table[count] := UidRate(uid, 1, now);
      count := count + 1;
      assert Entries() == t + [UidRate(uid, 1, now)];
      log := log + [Grant(uid, now)];
    }

    /** The clock moves on, or back, before anything is granted. */
    ghost method Tick(now: nat)
      requires Valid()
      modifies this`clock, this`monotone
      ensures Valid() && clock == now && monotone == (old(monotone) && old(clock) <= now)
    {
      hide Consistent;
      if monotone && 0 < limit && 0 < length && clock <= now {
        ClockAdvances(Entries(), log, clock, now, limit, length);
      }
      monotone := monotone && clock <= now;
      clock := now;
    }

    /** Grants exactly when the reference does, except that a new UID is refused by an exhausted table. */
    method Check(uid: nat, now: nat) returns (allowed: bool)
      requires Valid()
      modifies this, table
      ensures Valid()
      ensures clock == now && monotone == (old(monotone) && old(clock) <= now)
      ensures log == if allowed then old(log) + [Grant(uid, now)] else old(log)
      ensures limit <= 0 || length <= 0 ==> !allowed
      ensures monotone && 0 < limit && 0 < length ==>
                (allowed <==> Allows(Replay(old(log), length), uid, now, limit, length)
                              && !Exhausted(old(Entries()), uid, now, length))
      ensures forall i :: 0 <= i < old(count) && !Expired(old(table[i]), now, length) ==>
                i < count && table[i].uid == old(table[i].uid) && table[i].start == old(table[i].start)
    {
      hide Consistent, Allows, Replay, Unique;
      Tick(now);
      if limit <= 0 || length <= 0 {
        return false;
      }
      for i := 0 to count
        invariant forall j :: 0 <= j < i ==> table[j].uid != uid
      {
        if table[i].uid == uid {
          assert Entries()[i].uid == uid;
          if now < table[i].start || now - table[i].start >= length {
            Rewrite(i, UidRate(uid, 1, now));
          } else {
            if table[i].count >= limit {
              if monotone { SpentIsRefused(Entries(), i, log, now, limit, length); }
              return false;
            }
            Rewrite(i, table[i].(count := table[i].count + 1));
          }
          return true;
        }
      }
      assert !Held(Entries(), uid);
      if count < MAX_RATE_ENTRIES {
        Append(uid, now);
        return true;
      }
      allowed := Recycle(uid, now);
    }

    /** A full table without the UID gives it the first expired entry. */
    method Recycle(uid: nat, now: nat) returns (allowed: bool)
      requires now == clock && Valid() && 0 < limit && 0 < length && count == MAX_RATE_ENTRIES && !Held(Entries(), uid)
      modifies this`log, table
      ensures Valid() && log == if allowed then old(log) + [Grant(uid, now)] else old(log)
      ensures allowed <==> !Exhausted(old(Entries()), uid, now, length)
      ensures allowed && monotone ==> Allows(Replay(old(log), length), uid, now, limit, length)
      ensures forall i :: 0 <= i < count && !Expired(old(table[i]), now, length) ==> table[i] == old(table[i])
    {
      hide Consistent, Allows, Replay, Unique;
      for i := 0 to count
        invariant forall j :: 0 <= j < i ==> !Expired(table[j], now, length)
      {
        if now < table[i].start || now - table[i].start >= length {
          assert Expired(Entries()[i], now, length) && Entries()[i].uid != uid;
          Rewrite(i, UidRate(uid, 1, now));
          return true;
        }
      }
      return false;
    }

    /** Whatever the requests were, no UID was granted more than 2 * limit - 1 in any window length. */
    lemma NeverTooMany(uid: nat, t: int)
      requires Valid() && monotone && 0 < limit && 0 < length
      ensures Count(log, uid, t, t + length) <= 2 * limit - 1
    {
      GrantsPerWindow(log, uid, t, limit, length);
    }
  }
}
