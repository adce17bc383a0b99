/**
 Whole lists of trusted libraries: the loops of src/agent/startup_policy.c and
 src/agent/reload.c that trust a list, take it back and restore it.
 */
module TrustedLibs {
  import opened Paths
  import opened Seqs
  import opened TrustMaps

  /** The maps hold exactly this list of libraries, each trusted once per mention. */
  ghost predicate Holds(m: Maps, list: seq<string>)
    reads m
  {
    m.Valid() && m.undoWorks && m.matched && m.outstanding == list && m.libs == m.FileKeys(list)
  }

  /** Nothing is trusted: no library, no mountpoint. */
  lemma HoldsNothing(m: Maps)
    requires m.Valid() && m.undoWorks && m.matched && m.outstanding == []
    ensures Holds(m, []) && m.libs == {} && m.mounts == map[]
  {
    m.EmptyWhenNoneTrusted();
  }

  /** What is held fixes both maps. */
  lemma HoldsFixesMaps(m: Maps, n: map<Key, nat>, r: multiset<Key>)
    requires Counts(m.mounts, r) && Counts(n, r)
    ensures m.mounts == n
  {
    forall k ensures (k in m.mounts <==> k in n) && (k in n ==> m.mounts[k] == n[k]) {}
  }

  /** Trusts the libraries in turn, up to the first failure. */
  method TrustEach(m: Maps, list: seq<string>) returns (applied: nat)
    requires m.Valid()
    modifies m
    ensures m.Valid() && m.matched == old(m.matched) && applied <= |list|
    ensures m.outstanding == old(m.outstanding) + list[..applied]
    ensures applied == |list| ==> forall base | old(Holds(m, base)) :: Holds(m, base + list)
    ensures m.faults >= old(m.faults)
    ensures m.undoWorks && m.matched && applied < |list| ==>
      m.faults > old(m.faults) || !CanHold(m, old(m.outstanding) + list)
  {
    applied := 0;
    ghost var base := m.outstanding;
    ghost var whole := Holds(m, base);
    assert base + list[..0] == base;
    while applied < |list|
      invariant applied <= |list|
      invariant m.Valid() && m.matched == old(m.matched) && m.outstanding == base + list[..applied]
      invariant whole ==> Holds(m, base + list[..applied])
      invariant m.faults >= old(m.faults)
    {
      hide Maps.Total, Maps.FileKeys, Maps.AllTrustable, Maps.CanTrust, Maps.Trustable, Maps.FileKey, Counts, CanHold;
      TakeNext(base, list, applied);
      m.AddLib(base + list[..applied], list[applied]);
      if m.undoWorks && m.matched && CanHold(m, base + list) { NextHolds(m, base, list, applied); }
      var ok, _ := m.TrustLib(list[applied], false);
      if !ok {
        return;
      }
      applied := applied + 1;
    }
    assert list[..applied] == list;
  }

  /** Every library of the list resolves, and their counts fit 32 bits. */
  ghost predicate CanHold(m: Maps, list: seq<string>) {
    m.AllTrustable(list) && Fits(m.Total(list))
  }

  lemma NextHolds(m: Maps, base: seq<string>, list: seq<string>, n: nat)
    requires n < |list| && CanHold(m, base + list) && m.refs == m.Total(base + list[..n])
    ensures m.CanTrust(list[n])
  {
    hide Maps.Total, Maps.AllTrustable, Maps.CanTrust, Fits;
    assert (base + list)[..|base| + n] == base + list[..n];
    Restorable(m, base + list, |base| + n);
  }

  lemma TakeNext(base: seq<string>, list: seq<string>, n: nat)
    requires n < |list|
    ensures base + list[..n + 1] == base + list[..n] + [list[n]]
  {
  }

  /** Untrusts the first n libraries from the last one back (startup rollback). */
  method UntrustBack(m: Maps, ghost base: seq<string>, list: seq<string>, n: nat)
    requires m.Valid() && n <= |list| && m.outstanding == base + list[..n]
    modifies m
    ensures m.Valid()
    ensures m.undoWorks && old(m.matched) ==> m.matched && m.outstanding == base
    ensures m.faults >= old(m.faults)
  {
    var k := n;
    while k > 0
      invariant 0 <= k <= n && m.Valid() && m.faults >= old(m.faults)
      invariant m.undoWorks && old(m.matched) ==> m.matched && m.outstanding == base + list[..k]
    {
      k := k - 1;
      WithoutLast(base, list, k);
      var ok := m.UntrustLib(list[k], |base| + k);
    }
    assert base + list[..0] == base;
  }

  lemma WithoutLast(base: seq<string>, list: seq<string>, k: nat)
    requires k < |list|
    ensures var s := base + list[..k + 1]; s[|base| + k] == list[k] && Without(s, |base| + k) == base + list[..k]
  {
  }

  /** Untrusts a list from its front (reload); `strict` stops at an error other than ENOENT. */
  method UntrustFront(m: Maps, list: seq<string>, strict: bool) returns (ok: bool)
    requires m.Valid()
    modifies m
    ensures m.Valid()
    ensures m.undoWorks && old(m.matched) && list == old(m.outstanding) ==> ok && m.matched && m.outstanding == []
    ensures m.faults >= old(m.faults)
  {
    var k := 0;
    ghost var held := m.undoWorks && m.matched && list == m.outstanding;
    while k < |list|
      invariant k <= |list| && m.Valid() && m.faults >= old(m.faults)
      invariant held ==> m.matched && m.outstanding == list[k..]
    {
      assert held ==> list[k..][0] == list[k] && Without(list[k..], 0) == list[k + 1..];
      ok := m.UntrustLib(list[k], 0);
      var missing: bool := *;
      if !ok && !missing && strict {
        return;
      }
      k := k + 1;
    }
    ok := true;
  }

  lemma CountsFit(m: map<Key, nat>, r: multiset<Key>)
    requires Counts(m, r)
    ensures Fits(r)
  {
    forall k ensures r[k] <= MAX_REFS {
      if k !in r { assert r[k] == 0; }
    }
  }

  lemma {:induction false} TotalGrows(m: Maps, list: seq<string>, n: nat)
    requires n <= |list|
    ensures m.Total(list[..n]) <= m.Total(list)
    decreases |list| - n
  {
    hide Maps.Total, Maps.PathRefs, Maps.Shifted;
    if n == |list| {
      assert list[..n] == list;
    } else {
      TotalGrows(m, list, n + 1);
      assert list[..n + 1] == list[..n] + [list[n]];
      m.AddLib(list[..n], list[n]);
      MoreIsMore(m, m.Total(list[..n]), m.PathRefs(list[n]), m.Total(list));
    }
  }

  lemma MoreIsMore(m: Maps, r: multiset<Key>, d: multiset<Key>, t: multiset<Key>)
    requires m.Shifted(r, d, true) <= t
    ensures r <= t
  {
  }

  /** A list that was trusted once can be trusted again: every library in turn has room for its counts. */
  lemma Restorable(m: Maps, list: seq<string>, n: nat)
    requires n < |list| && CanHold(m, list) && m.refs == m.Total(list[..n])
    ensures m.CanTrust(list[n])
  {
    hide Maps.Total, Maps.RefsOf, Maps.Resolve, Maps.AllTrustable, Maps.Shifted, Fits, Parents, Maps.FileKey;
    m.DropTrustable(list, n);
    assert list[..n + 1] == list[..n] + [list[n]];
    m.AddLib(list[..n], list[n]);
    TotalGrows(m, list, n + 1);
    FitsLess(m.Total(list[..n + 1]), m.Total(list));
  }

  /** Trusts every library it can; when nothing fails and all could be held before, that is the whole list. */
  method RestoreEach(m: Maps, list: seq<string>) returns (restored: seq<string>)
    requires m.Valid()
    modifies m
    ensures m.Valid()
    ensures forall i :: 0 <= i < |restored| ==> restored[i] in list
    ensures m.outstanding == old(m.outstanding) + restored
    ensures old(Holds(m, [])) && CanHold(m, list) ==> restored == list && Holds(m, list)
    ensures m.faults >= old(m.faults)
  {
    hide Maps.Total, Maps.FileKeys, Maps.AllTrustable, Maps.CanTrust, Maps.Trustable, Maps.FileKey, Fits, Counts;
    restored := [];
    assert m.FileKeys([]) == {} && m.Total([]) == multiset{} by { TotalNone(m); }
    ghost var whole := Holds(m, []) && CanHold(m, list);
    for k := 0 to |list|
      invariant m.Valid() && m.faults >= old(m.faults) && forall i :: 0 <= i < |restored| ==> restored[i] in list
      invariant m.outstanding == old(m.outstanding) + restored
      invariant whole ==> restored == list[..k] && Holds(m, restored)
    {
      if whole {
        Restorable(m, list, k);
        m.AddLib(restored, list[k]);
        assert list[..k + 1] == list[..k] + [list[k]];
      }
      var ok, _ := m.TrustLib(list[k], m.undoWorks);
      if ok {
        restored := restored + [list[k]];
      }
    }
    assert list[..|list|] == list;
  }

  lemma TotalNone(m: Maps)
    ensures m.FileKeys([]) == {} && m.Total([]) == multiset{}
  {
  }

  lemma HeldCanReturn(m: Maps, list: seq<string>)
    requires Holds(m, list)
    ensures CanHold(m, list) && m.refs == m.Total(list)
  {
    CountsFit(m.mounts, m.refs);
  }

  /**
   reload_trust_libs: the new list replaces the old one, or both maps and the
   list are as before; and it fails only if an operation did, or the new list
   cannot be held.
   */
  method ReloadLibs(m: Maps, previous: seq<string>, wanted: seq<string>) returns (now: seq<string>, ok: bool)
    requires m.Valid()
    modifies m
    ensures m.Valid() && m.faults >= old(m.faults)
    ensures if ok then now == wanted else forall i :: 0 <= i < |now| ==> now[i] in previous
    ensures old(Holds(m, previous)) ==> Holds(m, now)
    ensures old(Holds(m, previous)) && !ok ==> now == previous && m.libs == old(m.libs) && m.mounts == old(m.mounts)
    ensures old(Holds(m, previous)) && !ok ==> m.faults > old(m.faults) || !CanHold(m, wanted)
  {
    hide Maps.Total, Maps.FileKeys, Maps.AllTrustable, Fits, Counts, CanHold;
    ghost var held, mounts := Holds(m, previous), m.mounts;
    if held { HeldCanReturn(m, previous); }
    var removed := UntrustFront(m, previous, true);
    if held { HoldsNothing(m); }
    var applied := 0;
    if removed {
      assert [] + wanted == wanted;
      applied := TrustEach(m, wanted);
      if applied == |wanted| {
        assert held ==> Holds(m, [] + wanted);
        return wanted, true;
      }
    }
    var _ := UntrustFront(m, wanted[..applied], false);
    if held { HoldsNothing(m); }
    now := RestoreEach(m, previous);
    ok := false;
    if held { HoldsFixesMaps(m, mounts, m.refs); }
  }
}
