/**
 The trusted-library and trusted-mountpoint maps of src/agent/bpf_loader.c:
 trusting a library counts a reference on every ancestor directory, and a
 failure part-way takes back exactly the references it counted.

 Map updates may fail at any time. `undoWorks` is the assumption under which
 the counts are exact: removals and rollback steps do not fail.
 */
module TrustMaps {
  import opened ByteCodec
  import opened Paths
  import opened Seqs

  /** Device and inode number, the map key. */
  datatype Key = Key(dev: nat, ino: nat)

  const NO_KEY := Key(0, 0)
  const MAX_REFS := 0xFFFF_FFFF

  predicate Usable(k: Key) {
    k.dev != 0 && k.ino != 0
  }

  /** The map's 32-bit counts are the multiset's, and an entry is absent exactly at zero. */
  ghost predicate Counts(m: map<Key, nat>, refs: multiset<Key>) {
    forall k :: (k in m <==> k in refs) && (k in m ==> m[k] == refs[k] <= MAX_REFS)
  }

  ghost predicate Fits(refs: multiset<Key>) {
    forall k :: refs[k] <= MAX_REFS
  }

  lemma FitsLess(a: multiset<Key>, b: multiset<Key>)
    requires a <= b && Fits(b)
    ensures Fits(a)
  {
    forall k ensures a[k] <= MAX_REFS {
      assert a[k] <= b[k] <= MAX_REFS;
    }
  }

  lemma CountUp(m: map<Key, nat>, refs: multiset<Key>, k: Key)
    requires Counts(m, refs) && refs[k] < MAX_REFS
    ensures Counts(m[k := (if k in m then m[k] else 0) + 1], refs + multiset{k})
  {
  }

  lemma CountDown(m: map<Key, nat>, refs: multiset<Key>, k: Key)
    requires Counts(m, refs) && k in refs
    ensures k in m && Counts(if m[k] == 1 then m - {k} else m[k := m[k] - 1], refs - multiset{k})
  {
  }

  class Maps {
    /** What stat finds, fixed while the agent runs: inodes of regular files and of directories. */
    const files: string -> Option<Key>
    const dirs: string -> Option<Key>
    const undoWorks: bool

    var libs: set<Key>
    var mounts: map<Key, nat>

    /** The references counted in `mounts`. */
    ghost var refs: multiset<Key>

    /** The libraries trusted and not untrusted since; and whether every untrust so far matched one of them. */
    ghost var outstanding: seq<string>
    ghost var matched: bool

    /** How many map operations have failed. */
    ghost var faults: nat

    ghost predicate Valid()
      reads this
    {
      && Counts(mounts, refs)
      && (undoWorks && matched ==>
            refs == Total(outstanding) && AllTrustable(outstanding) && libs <= FileKeys(outstanding))
    }

    constructor (files: string -> Option<Key>, dirs: string -> Option<Key>, undoWorks: bool)
      ensures this.files == files && this.dirs == dirs && this.undoWorks == undoWorks
      ensures Valid() && libs == {} && mounts == map[] && outstanding == [] && matched && faults == 0
    {
      this.files, this.dirs, this.undoWorks := files, dirs, undoWorks;
      libs, mounts, refs, outstanding, matched, faults := {}, map[], multiset{}, [], true, 0;
    }

    function DirKey(p: string): Key {
      match dirs(p)
      case Some(k) => if Usable(k) then k else NO_KEY
      case None => NO_KEY
    }

    /** A directory has a key exactly when stat finds it with a non-zero device and inode. */
    lemma DirKeyMeans(p: string)
      ensures DirKey(p) != NO_KEY <==> dirs(p).Some? && dirs(p).value.dev != 0 && dirs(p).value.ino != 0
      ensures DirKey(p) != NO_KEY ==> dirs(p) == Some(DirKey(p))
    {
    }

    /** So has a library, if its path is absolute. */
    lemma FileKeyMeans(p: string)
      ensures FileKey(p) != NO_KEY <==>
              |p| > 0 && p[0] == '/' && files(p).Some? && files(p).value.dev != 0 && files(p).value.ino != 0
      ensures FileKey(p) != NO_KEY ==> files(p) == Some(FileKey(p))
    {
    }

    /** One directory's reference count goes up or down by one. */
    method UpdateRef(dir: string, add: bool, reliable: bool) returns (ok: bool)
      requires Counts(mounts, refs)
      modifies this`mounts, this`refs, this`faults
      ensures Counts(mounts, refs) && faults >= old(faults) && (reliable ==> faults == old(faults))
      ensures ok ==> DirKey(dir) != NO_KEY && refs == Shifted(old(refs), multiset{DirKey(dir)}, add)
      ensures !ok ==> refs == old(refs) && mounts == old(mounts)
      ensures !ok && DirKey(dir) != NO_KEY && (add ==> old(refs)[DirKey(dir)] < MAX_REFS) ==> faults > old(faults)
    {
      var found := dirs(dir);
      if found.None? || !Usable(found.value) {
        return false;
      }
      var key := found.value;
      var fails: bool := *;
      if fails && !reliable {
        faults := faults + 1;
        return false;
      }
      var count := if key in mounts then mounts[key] else 0;
      if add {
        if count == MAX_REFS {
          return false;
        }
        CountUp(mounts, refs, key);
        mounts := mounts[key := count + 1];
        refs := refs + multiset{key};
        return true;
      }
      if count == 0 {
        assert refs - multiset{key} == refs;
        return true;
      }
      CountDown(mounts, refs, key);
      if count == 1 {
        mounts := mounts - {key};
      } else {
        mounts := mounts[key := count - 1];
      }
      refs := refs - multiset{key};
      return true;
    }

    /** The references the first n directories stand for. */
    ghost function RefsOf(ps: seq<string>, n: nat): multiset<Key>
      requires n <= |ps|
    {
      if n == 0 then multiset{} else RefsOf(ps, n - 1) + multiset{DirKey(ps[n - 1])}
    }

    ghost predicate Resolve(ps: seq<string>, n: nat)
      requires n <= |ps|
    {
      n == 0 || (Resolve(ps, n - 1) && DirKey(ps[n - 1]) != NO_KEY)
    }

    lemma {:induction false} ResolveAt(ps: seq<string>, n: nat, i: nat)
      requires i < n <= |ps| && Resolve(ps, n)
      ensures DirKey(ps[i]) != NO_KEY
    {
      if i < n - 1 {
        ResolveAt(ps, n - 1, i);
      }
    }

    lemma ResolveSteps(ps: seq<string>, n: nat)
      requires n <= |ps|
      ensures Resolve(ps, 0)
      ensures n < |ps| ==> (Resolve(ps, n + 1) <==> Resolve(ps, n) && DirKey(ps[n]) != NO_KEY)
    {
    }

    /** Counting one more directory, up or down, counts the longer list. */
    lemma ShiftNext(r: multiset<Key>, ps: seq<string>, n: nat, add: bool)
      requires n < |ps|
      ensures Shifted(r, RefsOf(ps, n + 1), add) ==
              Shifted(Shifted(r, RefsOf(ps, n), add), multiset{DirKey(ps[n])}, add)
    {
    }

    /** Room for all the directories is room for the next one. */
    lemma {:induction false} RoomForNext(r: multiset<Key>, ps: seq<string>, n: nat, i: nat)
      requires i < n <= |ps| && Fits(Shifted(r, RefsOf(ps, n), true))
      ensures Shifted(r, RefsOf(ps, i), true)[DirKey(ps[i])] < MAX_REFS
    {
      hide RefsOf, Shifted, DirKey;
      ShiftNext(r, ps, n - 1, true);
      OneMore(Shifted(r, RefsOf(ps, n - 1), true), DirKey(ps[n - 1]));
      if i < n - 1 {
        RoomForNext(r, ps, n - 1, i);
      }
    }

    /** Where one more reference fits, there was room for it. */
    lemma OneMore(r: multiset<Key>, k: Key)
      requires Fits(Shifted(r, multiset{k}, true))
      ensures Fits(r) && r[k] < MAX_REFS
    {
      FitsLess(r, Shifted(r, multiset{k}, true));
      assert Shifted(r, multiset{k}, true)[k] == r[k] + 1;
    }

    lemma NextIsPossible(r: multiset<Key>, ps: seq<string>, i: nat, add: bool)
      requires Possible(r, ps, add) && i < |ps|
      ensures DirKey(ps[i]) != NO_KEY
      ensures add ==> Shifted(r, RefsOf(ps, i), add)[DirKey(ps[i])] < MAX_REFS
    {
      ResolveAt(ps, |ps|, i);
      if add {
        RoomForNext(r, ps, |ps|, i);
      }
    }

    /** Every directory resolves, and no count would pass 32 bits. */
    ghost predicate Possible(r: multiset<Key>, ps: seq<string>, add: bool) {
      Resolve(ps, |ps|) && (add ==> Fits(Shifted(r, RefsOf(ps, |ps|), true)))
    }

    lemma ShiftNone(r: multiset<Key>, ps: seq<string>, add: bool)
      ensures Shifted(r, RefsOf(ps, 0), add) == r
    {
    }

    ghost function Shifted(r: multiset<Key>, d: multiset<Key>, add: bool): multiset<Key> {
      if add then r + d else r - d
    }

    lemma ShiftsDown(r: multiset<Key>, d: multiset<Key>)
      ensures Shifted(r, d, false) == r - d
    {
    }

    /** The forward walk over dir's ancestors: updates each count in turn, and stops at the first failure. */
    method Walk(dir: string, add: bool, reliable: bool) returns (applied: nat, ok: bool)
      requires |dir| < PATH_MAX && dir != "" && Counts(mounts, refs)
      modifies this`mounts, this`refs, this`faults
      ensures faults >= old(faults) && (reliable ==> faults == old(faults))
      ensures Counts(mounts, refs) && applied <= |Ancestors(dir)| && Resolve(Ancestors(dir), applied)
      ensures refs == Shifted(old(refs), RefsOf(Ancestors(dir), applied), add)
      ensures ok ==> applied == |Ancestors(dir)|
      ensures !ok && Possible(old(refs), Ancestors(dir), add) ==> faults > old(faults)
    {
      hide *;
      ghost var all := Ancestors(dir);
      var p, prefix := 1, "";
      applied := 0;
      StandingStart(dir);
      ResolveSteps(all, 0);
      ShiftNone(refs, all, add);
      while true
        invariant applied <= |all| && Standing(dir, p, prefix, applied)
        invariant Counts(mounts, refs) && Resolve(all, applied)
        invariant refs == Shifted(old(refs), RefsOf(all, applied), add)
        invariant faults >= old(faults) && (reliable ==> faults == old(faults))
        decreases |all| - applied
      {
        var found;
        found, p, prefix := Advance(dir, p, prefix, applied);
        if !found {
          return applied, true;
        }
        ShiftNext(old(refs), all, applied, add);
        ResolveSteps(all, applied);
        if Possible(old(refs), all, add) { NextIsPossible(old(refs), all, applied, add); }
        ok := UpdateRef(prefix, add, reliable);
        if !ok {
          return;
        }
        applied := applied + 1;
      }
    }

    /** The rollback walk: takes back the first `applied` increments, whatever its own updates return. */
    method Rollback(dir: string, applied: nat)
      requires |dir| < PATH_MAX && dir != "" && Counts(mounts, refs)
      requires applied <= |Ancestors(dir)| && Resolve(Ancestors(dir), applied)
      modifies this`mounts, this`refs, this`faults
      ensures Counts(mounts, refs) && faults >= old(faults) && (undoWorks ==> faults == old(faults))
      ensures undoWorks ==> refs == Shifted(old(refs), RefsOf(Ancestors(dir), applied), false)
    {
      hide *;
      ghost var all := Ancestors(dir);
      var p, prefix, done := 1, "", 0;
      StandingStart(dir);
      ShiftNone(refs, all, false);
      while done < applied
        invariant done <= applied && Standing(dir, p, prefix, done)
        invariant Counts(mounts, refs) && faults >= old(faults) && (undoWorks ==> faults == old(faults))
        invariant undoWorks ==> refs == Shifted(old(refs), RefsOf(all, done), false)
      {
        var found;
        found, p, prefix := Advance(dir, p, prefix, done);
        ShiftNext(old(refs), all, done, false);
        ResolveAt(all, applied, done);
        var ok := UpdateRef(prefix, false, undoWorks);
        done := done + 1;
      }
    }

    /** Counts every ancestor of the library path up, or down; a failed count up takes back what it did. */
    method UpdateParents(path: string, add: bool, reliable: bool) returns (ok: bool)
      requires Counts(mounts, refs)
      modifies this`mounts, this`refs, this`faults
      ensures Counts(mounts, refs) && faults >= old(faults) && (reliable && undoWorks ==> faults == old(faults))
      ensures ok ==> Parents(path).0 && Resolve(Parents(path).1, |Parents(path).1|)
                     && refs == Shifted(old(refs), RefsOf(Parents(path).1, |Parents(path).1|), add)
      ensures !ok && add && undoWorks ==> refs == old(refs)
      ensures !ok && Parents(path).0 && Possible(old(refs), Parents(path).1, add) ==> faults > old(faults)
    {
      if |path| == 0 || |path| >= PATH_MAX {
        return false;
      }
      var dir := path;
      while |dir| > 1 && dir[|dir| - 1] == '/'
        invariant 0 < |dir| <= |path| && Stripped(dir) == Stripped(path)
      {
        dir := dir[..|dir| - 1];
      }
      var slash := LastSlash(dir);
      if slash < 0 {
        return false;
      }
      if slash == 0 {
        ShiftNone(refs, Parents(path).1, add);
        return true;
      }
      ok := CountAncestors(dir[..slash], add, reliable);
    }

    method CountAncestors(dir: string, add: bool, reliable: bool) returns (ok: bool)
      requires |dir| < PATH_MAX && dir != "" && Counts(mounts, refs)
      modifies this`mounts, this`refs, this`faults
      ensures Counts(mounts, refs) && faults >= old(faults) && (reliable && undoWorks ==> faults == old(faults))
      ensures ok ==> Resolve(Ancestors(dir), |Ancestors(dir)|)
                     && refs == Shifted(old(refs), RefsOf(Ancestors(dir), |Ancestors(dir)|), add)
      ensures !ok && add && undoWorks ==> refs == old(refs)
      ensures !ok && Possible(old(refs), Ancestors(dir), add) ==> faults > old(faults)
    {
      hide *;
      var applied;
      applied, ok := Walk(dir, add, reliable);
      if !ok && add {
        Cancels(old(refs), RefsOf(Ancestors(dir), applied));
        Rollback(dir, applied);
      }
    }

    lemma Cancels(r: multiset<Key>, d: multiset<Key>)
      ensures Shifted(Shifted(r, d, true), d, false) == r
    {
    }

    // ----- libraries

    function FileKey(path: string): Key {
      if path == "" || path[0] != '/' then NO_KEY
      else match files(path)
           case Some(k) => if Usable(k) then k else NO_KEY
           case None => NO_KEY
    }

    ghost function PathRefs(path: string): multiset<Key> {
      RefsOf(Parents(path).1, |Parents(path).1|)
    }

    /** The (library, ancestor) pairs of a list of libraries, by the directory they resolve to. */
    ghost function Total(ps: seq<string>): multiset<Key> {
      if ps == [] then multiset{} else Total(ps[..|ps| - 1]) + PathRefs(ps[|ps| - 1])
    }

    ghost function FileKeys(ps: seq<string>): set<Key> {
      if ps == [] then {} else FileKeys(ps[..|ps| - 1]) + {FileKey(ps[|ps| - 1])}
    }

    ghost predicate Trustable(path: string) {
      FileKey(path) != NO_KEY && Parents(path).0 && Resolve(Parents(path).1, |Parents(path).1|)
    }

    ghost predicate AllTrustable(ps: seq<string>) {
      ps == [] || (AllTrustable(ps[..|ps| - 1]) && Trustable(ps[|ps| - 1]))
    }

    lemma AddLib(ps: seq<string>, path: string)
      ensures Total(ps + [path]) == Shifted(Total(ps), PathRefs(path), true)
      ensures FileKeys(ps + [path]) == FileKeys(ps) + {FileKey(path)}
      ensures AllTrustable(ps + [path]) <==> AllTrustable(ps) && Trustable(path)
    {
      assert (ps + [path])[..|ps|] == ps;
    }

    lemma {:induction false} DropTotal(ps: seq<string>, k: nat)
      requires k < |ps|
      ensures Total(ps) == Shifted(Total(Without(ps, k)), PathRefs(ps[k]), true)
    {
      hide PathRefs;
      var n := |ps| - 1;
      var init, last := ps[..n], ps[n];
      if k == n {
        assert Without(ps, k) == init;
      } else {
        DropTotal(init, k);
        WithoutEarlier(ps, k);
        AddLib(Without(init, k), last);
      }
    }

    lemma {:induction false} DropKeys(ps: seq<string>, k: nat)
      requires k < |ps|
      ensures FileKeys(ps) == FileKeys(Without(ps, k)) + {FileKey(ps[k])}
    {
      hide FileKey;
      var n := |ps| - 1;
      var init, last := ps[..n], ps[n];
      if k == n {
        assert Without(ps, k) == init;
      } else {
        DropKeys(init, k);
        WithoutEarlier(ps, k);
        AddLib(Without(init, k), last);
      }
    }

    lemma {:induction false} DropTrustable(ps: seq<string>, k: nat)
      requires k < |ps| && AllTrustable(ps)
      ensures AllTrustable(Without(ps, k)) && Trustable(ps[k])
    {
      hide Trustable;
      var n := |ps| - 1;
      var init, last := ps[..n], ps[n];
      if k == n {
        assert Without(ps, k) == init;
      } else {
        DropTrustable(init, k);
        WithoutEarlier(ps, k);
        AddLib(Without(init, k), last);
      }
    }

    /** Taking one library out takes out exactly its own references. */
    lemma DropLib(ps: seq<string>, k: nat)
      requires k < |ps| && AllTrustable(ps)
      ensures Total(Without(ps, k)) == Shifted(Total(ps), PathRefs(ps[k]), false)
      ensures FileKeys(ps) == FileKeys(Without(ps, k)) + {FileKey(ps[k])}
      ensures AllTrustable(Without(ps, k)) && Trustable(ps[k])
    {
      hide *;
      DropTotal(ps, k);
      DropKeys(ps, k);
      DropTrustable(ps, k);
      Cancels(Total(Without(ps, k)), PathRefs(ps[k]));
    }

    lemma {:induction false} HasKey(ps: seq<string>, key: Key)
      ensures key in FileKeys(ps) <==> exists i :: 0 <= i < |ps| && FileKey(ps[i]) == key
    {
      hide FileKey;
      if ps == [] {
      } else {
        var n := |ps| - 1;
        HasKey(ps[..n], key);
        assert forall i :: 0 <= i < n ==> ps[..n][i] == ps[i];
      }
    }

    /** Deleting one library's key leaves the keys of the others exactly when none of them shares it. */
    lemma KeyGoes(ps: seq<string>, k: nat)
      requires k < |ps|
      ensures var rest := Without(ps, k);
              FileKeys(ps) - {FileKey(ps[k])} == FileKeys(rest) <==>
              forall i :: 0 <= i < |rest| ==> FileKey(rest[i]) != FileKey(ps[k])
    {
      hide FileKeys, FileKey;
      DropKeys(ps, k);
      HasKey(Without(ps, k), FileKey(ps[k]));
    }

    // ----- trusting and untrusting

    /** The library's file and directories resolve, and every count has room. */
    ghost predicate CanTrust(path: string)
      reads this
    {
      FileKey(path) != NO_KEY && Parents(path).0 && Possible(refs, Parents(path).1, true)
    }

    /**
     Trusts a library, or leaves every count as it was. `entered` says that the
     library map took the file's key. A failure after that deletes the key, so
     the map is as before exactly when the key was not in it already.
     */
    method TrustLib(path: string, reliable: bool) returns (ok: bool, ghost entered: bool)
      requires Valid()
      modifies this
      ensures Valid() && matched == old(matched)
      ensures ok ==> outstanding == old(outstanding) + [path] && libs == old(libs) + {FileKey(path)}
      ensures ok ==> Trustable(path)
      ensures !ok ==> outstanding == old(outstanding)
      ensures !ok && undoWorks ==> refs == old(refs)
      ensures !ok && undoWorks ==> libs == if entered then old(libs) - {FileKey(path)} else old(libs)
      ensures !ok && undoWorks ==> (libs == old(libs) <==> !entered || FileKey(path) !in old(libs))
      ensures entered ==> FileKey(path) != NO_KEY
      ensures FileKey(path) != NO_KEY && faults == old(faults) ==> entered
      ensures faults >= old(faults) && (reliable && undoWorks ==> faults == old(faults))
      ensures !ok && old(CanTrust(path)) ==> faults > old(faults)
    {
      hide Counts, Total, FileKeys, AllTrustable, RefsOf, Parents, Resolve, Possible, Shifted, FileKey;
      var key := FileKey(path);
      if key == NO_KEY {
        return false, false;
      }
      var fails: bool := *;
      if fails && !reliable {
        faults := faults + 1;
        return false, false;
      }
      libs := libs + {key};
      entered := true;
      ok := UpdateParents(path, true, reliable);
      AddLib(outstanding, path);
      if ok {
        outstanding := outstanding + [path];
      } else {
        var stays: bool := *;
        if undoWorks || !stays {
          libs := libs - {key};
        }
      }
    }

    /**
     Untrusts a library. `k` names the trust it matches, if there is one. The
     file's key goes, so the library map still holds every outstanding library
     exactly when no other one has that key.
     */
    method UntrustLib(path: string, ghost k: nat) returns (ok: bool)
      requires Valid()
      modifies this
      ensures Valid()
      ensures matched == (old(matched) && k < |old(outstanding)| && old(outstanding)[k] == path)
      ensures faults >= old(faults) && (undoWorks ==> faults == old(faults))
      ensures FileKey(path) == NO_KEY ==> !ok && libs == old(libs) && mounts == old(mounts)
      ensures ok ==> libs == old(libs) - {FileKey(path)} && refs == old(refs) - PathRefs(path)
      ensures !ok && FileKey(path) != NO_KEY && Parents(path).0 && Possible(old(refs), Parents(path).1, false) ==>
        faults > old(faults)
      ensures undoWorks && matched ==>
        ok && outstanding == Without(old(outstanding), k) && libs == old(libs) - {FileKey(path)}
      ensures undoWorks && matched && old(libs == FileKeys(outstanding)) ==>
        (libs == FileKeys(outstanding) <==>
         forall i :: 0 <= i < |outstanding| ==> FileKey(outstanding[i]) != FileKey(path))
    {
      hide Counts, Total, FileKeys, AllTrustable, RefsOf, Parents, Resolve, Possible, Shifted, FileKey;
      matched := matched && k < |outstanding| && outstanding[k] == path;
      if undoWorks && matched {
        DropLib(outstanding, k);
        KeyGoes(outstanding, k);
        RemovalPossible(refs, Parents(path).1);
      }
      var key := FileKey(path);
      if key == NO_KEY {
        return false;
      }
      var fails: bool := *;
      if fails && !undoWorks {
        faults := faults + 1;
        return false;
      }
      libs := libs - {key};
      ShiftsDown(refs, PathRefs(path));
      ok := UpdateParents(path, false, undoWorks);
      if undoWorks && matched {
        outstanding := Without(outstanding, k);
      }
    }

    lemma RemovalPossible(r: multiset<Key>, ps: seq<string>)
      ensures Possible(r, ps, false) <==> Resolve(ps, |ps|)
    {
    }

    // ----- what the counts mean

    /** How many of the first n directories resolve to k. */
    ghost function Hits(ps: seq<string>, n: nat, k: Key): nat
      requires n <= |ps|
    {
      if n == 0 then 0 else Hits(ps, n - 1, k) + if DirKey(ps[n - 1]) == k then 1 else 0
    }

    /** How many pairs of a listed library and one of its ancestor directories resolve to k. */
    ghost function Pairs(libs: seq<string>, k: Key): nat {
      if libs == [] then 0
      else
        var ps := Parents(libs[|libs| - 1]).1;
        Pairs(libs[..|libs| - 1], k) + Hits(ps, |ps|, k)
    }

    lemma {:induction false} RefsAreHits(ps: seq<string>, n: nat, k: Key)
      requires n <= |ps|
      ensures RefsOf(ps, n)[k] == Hits(ps, n, k)
    {
      if n == 0 {
      } else {
        RefsAreHits(ps, n - 1, k);
      }
    }

    lemma {:induction false} TotalIsPairs(libs: seq<string>, k: Key)
      ensures Total(libs)[k] == Pairs(libs, k)
    {
      if libs == [] {
      } else {
        var ps := Parents(libs[|libs| - 1]).1;
        TotalIsPairs(libs[..|libs| - 1], k);
        RefsAreHits(ps, |ps|, k);
      }
    }

    /** Over every run: a mountpoint's count is its number of pairs, and it has no entry exactly when there is none. */
    lemma MountCount(k: Key)
      requires Valid() && undoWorks && matched
      ensures k in mounts <==> Pairs(outstanding, k) > 0
      ensures k in mounts ==> mounts[k] == Pairs(outstanding, k)
    {
      TotalIsPairs(outstanding, k);
    }

    /** Nothing trusted, nothing left behind. */
    lemma EmptyWhenNoneTrusted()
      requires Valid() && undoWorks && matched && outstanding == []
      ensures mounts == map[] && libs == {}
    {
      forall k ensures k !in mounts {
        MountCount(k);
      }
    }
  }

  // ----- a failed trust that takes a key another path had entered

  const SHARED := Key(1, 1)

  /** A library listed twice and untrusted once is outstanding still, and gone from the library map. */
  method OneUntrustTakesTheKey() returns (m: Maps)
    ensures fresh(m) && m.Valid() && m.undoWorks && m.matched && m.faults == 0
    ensures m.outstanding == ["/f"] && m.FileKey("/f") == SHARED != NO_KEY && m.libs == {}
  {
    m := new Maps(_ => Some(SHARED), _ => None, true);
    RootFileHasNoParents();
    assert m.CanTrust("/f");
    var first, _ := m.TrustLib("/f", true);
    assert m.CanTrust("/f");
    var second, _ := m.TrustLib("/f", true);
    var gone := m.UntrustLib("/f", 0);
  }

  lemma RootFileHasNoParents()
    ensures Parents("/f") == (true, [])
  {
    assert Stripped("/f") == "/f" && LastSlash("/f") == 0;
    assert "/f"[..0] == "";
  }

  lemma NestedFileHasParent()
    ensures Parents("/x/f").0 && |Parents("/x/f").1| == 1
  {
    assert Stripped("/x/f") == "/x/f";
    assert "/x/f"[..3] == "/x/" && LastSlash("/x/") == 2 && LastSlash("/x/f") == 2;
    assert "/x/f"[..2] == "/x";
    assert End("/x", 1) == 2;
    assert |Components("/x", 1)| == 1;
  }

  /**
   Two paths to one file, the second below a directory that does not resolve:
   trusting the first and then the second leaves the first outstanding, no
   operation has failed, and the library map has lost the file.
   */
  method SecondPathTakesTheKey() returns (m: Maps)
    ensures fresh(m) && m.Valid() && m.undoWorks && m.matched && m.faults == 0
    ensures m.outstanding == ["/f"] && m.FileKey("/f") == SHARED != NO_KEY && m.libs == {}
  {
    m := new Maps(_ => Some(SHARED), _ => None, true);
    RootFileHasNoParents();
    NestedFileHasParent();
    assert m.CanTrust("/f");
    var first, _ := m.TrustLib("/f", true);
    assert !m.Trustable("/x/f");
    var second, _ := m.TrustLib("/x/f", true);
  }
}
