/**
 The fd -> client lookup table of the IPC server (client_map_* in
 src/agent/ipc.c): open addressing with linear probing and tombstones over
 4096 slots. Its abstract value is a plain map.
 */
module ClientTable {
  import opened ByteCodec

  const SIZE := 4096
  const FD_EMPTY := -1
  const FD_TOMB := -2

  datatype Entry<T> = Entry(fd: int, client: Option<T>)

  /** (uint32_t)fd * 2654435761u, reduced to a slot number. */
  function Home(fd: int): (h: nat)
    ensures h < SIZE
  {
    fd % 0x1_0000_0000 * 2654435761 % 0x1_0000_0000 % SIZE
  }

  /** The multiplicative hash keeps its low 12 bits, so the 32-bit wrap does not show. */
  lemma HomeIsLowBits(fd: int)
    ensures Home(fd) == fd * 2654435761 % SIZE
  {
    var x := fd % 0x1_0000_0000 * 2654435761;
    assert fd * 2654435761 == x + SIZE * (0x10_0000 * (fd / 0x1_0000_0000) * 2654435761);
    SameRemainder(x, 0x10_0000 * (fd / 0x1_0000_0000) * 2654435761);
    assert x == x % 0x1_0000_0000 + SIZE * (0x10_0000 * (x / 0x1_0000_0000));
    SameRemainder(x % 0x1_0000_0000, 0x10_0000 * (x / 0x1_0000_0000));
  }

  lemma SameRemainder(x: int, k: int)
    ensures (x + SIZE * k) % SIZE == x % SIZE
  {
    var q := x / SIZE;
    assert x + SIZE * k == SIZE * (q + k) + x % SIZE;
  }

  /** The slot d probes after h. */
  function At(h: nat, d: nat): (i: nat)
    requires h < SIZE && d <= SIZE
    ensures i < SIZE
  {
    if h + d >= SIZE then h + d - SIZE else h + d
  }

  /** The source steps the index by (idx + 1) & mask. */
  function Next(i: nat): (j: nat)
    requires i < SIZE
    ensures j == if i == SIZE - 1 then 0 else i + 1
  {
    (i + 1) % SIZE
  }

  function Distance(h: nat, i: nat): (d: nat)
    requires h < SIZE && i < SIZE
    ensures d < SIZE && At(h, d) == i
  {
    if i >= h then i - h else i - h + SIZE
  }

  /** A probe for a live slot's key from its home meets no empty slot on the way. */
  ghost predicate Reachable<T>(s: seq<Entry<T>>, h: nat, i: nat)
    requires |s| == SIZE && h < SIZE && i < SIZE
  {
    forall d :: 0 <= d < Distance(h, i) ==> s[At(h, d)].fd != FD_EMPTY
  }

  ghost predicate Findable<T>(s: seq<Entry<T>>, i: nat)
    requires |s| == SIZE && i < SIZE
  {
    Reachable(s, Home(s[i].fd), i)
  }

  /** The slots represent the map m. */
  ghost predicate Represents<T>(s: seq<Entry<T>>, m: map<int, T>) {
    && |s| == SIZE
    && (forall i :: 0 <= i < SIZE ==> s[i].fd >= FD_TOMB)
    && (forall i :: 0 <= i < SIZE && s[i].fd >= 0 ==>
          s[i].fd in m && s[i].client == Some(m[s[i].fd]) && Findable(s, i))
    && (forall k :: k in m ==> k >= 0 && Occupied(s, k))
    && (forall i, j :: 0 <= i < j < SIZE && s[i].fd >= 0 ==> s[i].fd != s[j].fd)
  }

  ghost predicate Occupied<T>(s: seq<Entry<T>>, fd: int) {
    exists i :: 0 <= i < |s| && s[i].fd == fd
  }

  /** What the first n probes from h for fd have established. */
  ghost predicate Missed<T>(s: seq<Entry<T>>, h: nat, fd: int, n: nat)
    requires |s| == SIZE && h < SIZE && n <= SIZE
  {
    forall d :: 0 <= d < n ==> s[At(h, d)].fd != fd && s[At(h, d)].fd != FD_EMPTY
  }

  /** A probe that ends at an empty slot, or after a full round, proves the key absent. */
  lemma MissedIsAbsent<T>(s: seq<Entry<T>>, m: map<int, T>, fd: int, n: nat)
    requires Represents(s, m) && fd >= 0 && n <= SIZE && Missed(s, Home(fd), fd, n)
    requires n < SIZE ==> s[At(Home(fd), n)].fd == FD_EMPTY
    ensures fd !in m
  {
    if fd in m {
      var i :| 0 <= i < |s| && s[i].fd == fd;
      var d := Distance(Home(fd), i);
      assert false;
    }
  }

  /** Filling a free slot reached without meeting an empty one adds the key. */
  lemma FillRepresents<T>(s: seq<Entry<T>>, m: map<int, T>, fd: int, c: T, d: nat)
    requires Represents(s, m) && fd >= 0 && fd !in m && d < SIZE
    requires Clear(s, Home(fd), d)
    requires s[At(Home(fd), d)].fd < 0
    ensures Represents(s[At(Home(fd), d) := Entry(fd, Some(c))], m[fd := c])
  {
    hide Home;
    var at := At(Home(fd), d);
    var s' := s[at := Entry(fd, Some(c))];
    assert Distance(Home(fd), at) == d;
    assert s'[at].fd == fd;
    forall i | 0 <= i < SIZE && s'[i].fd >= 0 ensures s'[i].fd in m[fd := c] && Findable(s', i) {
      if i != at {
        assert Findable(s, i);
      }
    }
    forall k | k in m ensures Occupied(s', k) {
      var i :| 0 <= i < |s| && s[i].fd == k;
      assert s'[i].fd == k;
    }
  }

  /** Overwriting the client of a live slot updates the key. */
  lemma ReplaceRepresents<T>(s: seq<Entry<T>>, m: map<int, T>, i: nat, c: T)
    requires Represents(s, m) && i < SIZE && s[i].fd >= 0
    ensures Represents(s[i := Entry(s[i].fd, Some(c))], m[s[i].fd := c])
  {
    hide Home;
    var s' := s[i := Entry(s[i].fd, Some(c))];
    assert forall d :: 0 <= d < SIZE ==> s'[d].fd == s[d].fd;
    forall j | 0 <= j < SIZE && s'[j].fd >= 0 ensures Findable(s', j) {
      assert Findable(s, j);
    }
    forall k | k in m ensures Occupied(s', k) {
      var j :| 0 <= j < |s| && s[j].fd == k;
      assert s'[j].fd == k;
    }
  }

  /** Turning a live slot into a tombstone removes the key. */
  lemma BuryRepresents<T>(s: seq<Entry<T>>, m: map<int, T>, i: nat)
    requires Represents(s, m) && i < SIZE && s[i].fd >= 0
    ensures Represents(s[i := Entry(FD_TOMB, None)], m - {s[i].fd})
  {
    hide Home;
    var s' := s[i := Entry(FD_TOMB, None)];
    forall j | 0 <= j < SIZE && s'[j].fd >= 0 ensures Findable(s', j) {
      assert Findable(s, j);
    }
    forall k | k in m && k != s[i].fd ensures Occupied(s', k) {
      var j :| 0 <= j < |s| && s[j].fd == k;
      assert s'[j].fd == k;
    }
  }

  /** A table without a free slot holds 4096 keys. */
  lemma {:induction false} LiveSlotsAreKeys<T>(s: seq<Entry<T>>, keys: set<int>)
    requires forall i :: 0 <= i < |s| ==> s[i].fd in keys
    requires forall i, j :: 0 <= i < j < |s| ==> s[i].fd != s[j].fd
    ensures |s| <= |keys|
  {
    if s == [] {
    } else {
      var n := |s| - 1;
      LiveSlotsAreKeys(s[..n], keys - {s[n].fd});
    }
  }

  /** When every probe met a live slot, the table is full: all 4096 slots are live, with distinct keys. */
  lemma FullTable<T>(s: seq<Entry<T>>, m: map<int, T>, h: nat)
    requires Represents(s, m) && h < SIZE && AllLive(s, h, SIZE)
    ensures forall i :: 0 <= i < SIZE ==> s[i].fd >= 0
    ensures |m| >= SIZE
  {
    forall i | 0 <= i < SIZE ensures s[i].fd >= 0 {
      assert At(h, Distance(h, i)) == i;
    }
    LiveSlotsAreKeys(s, m.Keys);
  }

  /** No probe before the d-th met an empty slot. */
  ghost predicate Clear<T>(s: seq<Entry<T>>, h: nat, d: nat)
    requires |s| == SIZE && h < SIZE && d <= SIZE
  {
    forall e :: 0 <= e < d ==> s[At(h, e)].fd != FD_EMPTY
  }

  ghost predicate AllLive<T>(s: seq<Entry<T>>, h: nat, n: nat)
    requires |s| == SIZE && h < SIZE && n <= SIZE
  {
    forall d :: 0 <= d < n ==> s[At(h, d)].fd >= 0
  }

  /**
   The probe loop of an insert. After n probes it ends with `at`, the slot
   holding fd, or else with `free`, where a new key goes: the first tombstone
   met, d probes from home, or the empty slot that ended the loop.
   */
  method Probe<T>(slots: array<Entry<T>>, fd: int) returns (at: int, free: int, ghost n: nat, ghost d: nat)
    requires slots.Length == SIZE && fd >= 0 && forall i :: 0 <= i < SIZE ==> slots[i].fd >= FD_TOMB
    ensures n <= SIZE && Missed(slots[..], Home(fd), fd, n)
    ensures at >= 0 ==> at < SIZE && slots[at].fd == fd
    ensures at < 0 ==> n == SIZE || slots[At(Home(fd), n)].fd == FD_EMPTY
    ensures at < 0 && free >= 0 ==>
              d < SIZE && d <= n && free == At(Home(fd), d) && slots[free].fd < 0 && AllLive(slots[..], Home(fd), d)
    ensures at < 0 && free < 0 ==> AllLive(slots[..], Home(fd), SIZE)
  {
    ghost var s, h := slots[..], Home(fd);
    var idx := Home(fd);
    at, free, n, d := -1, -1, 0, 0;
    for probe := 0 to SIZE
      invariant at == -1 && idx == At(h, probe)
      invariant n == probe && Missed(s, h, fd, probe)
      invariant free < 0 ==> AllLive(s, h, probe)
      invariant free >= 0 ==> d < probe && free == At(h, d) && s[free].fd == FD_TOMB && AllLive(s, h, d)
    {
      if slots[idx].fd == fd {
        at := idx;
        return;
      }
      if slots[idx].fd == FD_EMPTY {
        if free < 0 {
          free, d := idx, probe;
        }
        return;
      }
      if slots[idx].fd == FD_TOMB && free < 0 {
        free, d := idx, probe;
      }
      idx := Next(idx);
      n := probe + 1;
    }
  }

  class Table<T> {
    const slots: array<Entry<T>>
    /** The slots as a value, and the map they represent. */
    ghost var view: seq<Entry<T>>
    ghost var contents: map<int, T>

    ghost predicate Valid()
      reads this, slots
    {
      slots.Length == SIZE && slots[..] == view && Represents(view, contents)
    }

    constructor ()
      ensures Valid() && contents == map[] && fresh(slots)
    {
      slots := new Entry<T>[SIZE](_ => Entry(FD_EMPTY, None));
      contents, view := map[], seq(SIZE, _ => Entry(FD_EMPTY, None));
    }

    /** Writes a new key into the free slot d probes from its home. */
    method Fill(at: nat, fd: int, client: T, ghost d: nat)
      requires Valid() && fd >= 0 && fd !in contents
      requires d < SIZE && at == At(Home(fd), d) && slots[at].fd < 0
      requires Clear(slots[..], Home(fd), d)
      modifies this, slots
      ensures Valid() && contents == old(contents)[fd := client]
    {
      FillRepresents(view, contents, fd, client, d);
      slots[at] := Entry(fd, Some(client));
      view := view[at := Entry(fd, Some(client))];
      contents := contents[fd := client];
    }

    /** Overwrites the client of a live slot. */
    method Replace(at: nat, client: T)
      requires Valid() && at < SIZE && slots[at].fd >= 0
      modifies this, slots
      ensures Valid() && contents == old(contents)[old(slots[at].fd) := client]
    {
      ReplaceRepresents(view, contents, at, client);
      contents := contents[slots[at].fd := client];
      slots[at] := Entry(slots[at].fd, Some(client));
      view := view[at := slots[at]];
    }

    method Insert(fd: int, client: T) returns (ok: bool)
      requires Valid() && fd >= 0
      modifies this, slots
      ensures Valid()
      ensures contents == if ok then old(contents)[fd := client] else old(contents)
      ensures !ok ==> slots[..] == old(slots[..]) && forall i :: 0 <= i < SIZE ==> slots[i].fd >= 0
      ensures |old(contents)| < SIZE ==> ok
    {
      ghost var n, d;
      var at, free;
      at, free, n, d := Probe(slots, fd);
      if at >= 0 {
        Replace(at, client);
        return true;
      }
      MissedIsAbsent(slots[..], contents, fd, n);
      if free >= 0 {
        Fill(free, fd, client, d);
        return true;
      }
      FullTable(slots[..], contents, Home(fd));
      return false;
    }

    method Find(fd: int) returns (r: Option<T>)
      requires Valid() && fd >= 0
      ensures r == if fd in contents then Some(contents[fd]) else None
    {
      ghost var s, h := slots[..], Home(fd);
      var idx := Home(fd);
      for probe := 0 to SIZE
        invariant idx == At(h, probe)
        invariant Missed(s, h, fd, probe)
      {
        if slots[idx].fd == fd {
          return slots[idx].client;
        }
        if slots[idx].fd == FD_EMPTY {
          MissedIsAbsent(s, contents, fd, probe);
          return None;
        }
        idx := Next(idx);
      }
      MissedIsAbsent(s, contents, fd, SIZE);
      return None;
    }

    method Remove(fd: int)
      requires Valid() && fd >= 0
      modifies this, slots
      ensures Valid() && contents == old(contents) - {fd}
    {
      ghost var s, h := slots[..], Home(fd);
      var idx := Home(fd);
      for probe := 0 to SIZE
        invariant slots[..] == s && s == view && contents == old(contents)
        invariant idx == At(h, probe)
        invariant Missed(s, h, fd, probe)
      {
        if slots[idx].fd == fd {
          BuryRepresents(view, contents, idx);
          slots[idx] := Entry(FD_TOMB, None);
          view := view[idx := Entry(FD_TOMB, None)];
          contents := contents - {fd};
          return;
        }
        if slots[idx].fd == FD_EMPTY {
          MissedIsAbsent(s, contents, fd, probe);
          assert contents == contents - {fd};
          return;
        }
        idx := Next(idx);
      }
      MissedIsAbsent(s, contents, fd, SIZE);
      assert contents == contents - {fd};
    }
  }
}
