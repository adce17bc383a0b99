/**
 Connected clients (client_create, client_find and client_destroy in
 src/agent/ipc.c): a linked list owns the clients, the
 table of module ClientTable finds them by fd, and a counter caps them at 2048.
 */
module ClientRegistry {
  import opened ByteCodec
  import opened ClientTable
  import opened Seqs

  const MAX_CLIENTS := 2048

  /** The fields of struct ipc_client that the list and the table use; module IpcClient has the others. */
  class ClientNode {
    const fd: int
    const uid: nat
    var next: ClientNode?

    constructor (fd: int, uid: nat)
      ensures this.fd == fd && this.uid == uid && next == null
    {
      this.fd, this.uid, next := fd, uid, null;
    }
  }

  /** `head` and the next fields chain the clients of `list` in order. */
  ghost predicate Linked(list: seq<ClientNode>, head: ClientNode?)
    reads list
  {
    && head == (if list == [] then null else list[0])
    && (forall i {:trigger list[i].next} :: 0 <= i < |list| ==>
          list[i].next == if i + 1 < |list| then list[i + 1] else null)
  }

  /** The map from fd to client that a list of clients describes. */
  ghost function IndexOf(list: seq<ClientNode>): map<int, ClientNode> {
    if list == [] then map[] else IndexOf(list[1..])[list[0].fd := list[0]]
  }

  /** Non-negative fds, no two the same. */
  ghost predicate DistinctFds(list: seq<ClientNode>) {
    list != [] ==> list[0].fd >= 0 && list[0].fd !in IndexOf(list[1..]) && DistinctFds(list[1..])
  }

  lemma {:induction false} IndexSound(list: seq<ClientNode>, fd: int)
    requires fd in IndexOf(list)
    ensures IndexOf(list)[fd] in list && IndexOf(list)[fd].fd == fd
  {
    if list[0].fd != fd {
      IndexSound(list[1..], fd);
    }
  }

  lemma {:induction false} IndexComplete(list: seq<ClientNode>, i: nat)
    requires DistinctFds(list) && i < |list|
    ensures list[i].fd >= 0 && list[i].fd in IndexOf(list) && IndexOf(list)[list[i].fd] == list[i]
  {
    if i == 0 {
    } else {
      IndexComplete(list[1..], i - 1);
    }
  }

  lemma {:induction false} IndexSize(list: seq<ClientNode>)
    requires DistinctFds(list)
    ensures |IndexOf(list)| == |list|
  {
    if list == [] {
    } else {
      IndexSize(list[1..]);
    }
  }

  lemma IndexAdd(list: seq<ClientNode>, c: ClientNode)
    requires DistinctFds(list) && c.fd >= 0 && c.fd !in IndexOf(list)
    ensures DistinctFds([c] + list) && IndexOf([c] + list) == IndexOf(list)[c.fd := c]
  {
    assert ([c] + list)[1..] == list;
  }

  lemma {:induction false} IndexDrop(list: seq<ClientNode>, k: nat)
    requires DistinctFds(list) && k < |list|
    ensures IndexOf(Without(list, k)) == IndexOf(list) - {list[k].fd}
    ensures DistinctFds(Without(list, k))
  {
    var rest := Without(list, k);
    if k == 0 {
      assert rest == list[1..];
    } else {
      IndexDrop(list[1..], k - 1);
      IndexComplete(list[1..], k - 1);
      assert rest[1..] == Without(list[1..], k - 1);
    }
  }

  lemma NoClientTwice(list: seq<ClientNode>)
    requires DistinctFds(list)
    ensures forall i, j :: 0 <= i < j < |list| ==> list[i] != list[j]
  {
    forall i, j | 0 <= i < j < |list| ensures list[i] != list[j] {
      DistinctPair(list, i, j);
    }
  }

  lemma {:induction false} DistinctPair(list: seq<ClientNode>, i: nat, j: nat)
    requires DistinctFds(list) && i < j < |list|
    ensures list[i].fd != list[j].fd
  {
    if i > 0 {
      DistinctPair(list[1..], i - 1, j - 1);
    } else {
      IndexComplete(list[1..], j - 1);
    }
  }

  /** Puts c in front of the list. */
  method Link(c: ClientNode, head: ClientNode?, ghost list: seq<ClientNode>)
    requires Linked(list, head) && c !in list
    modifies c`next
    ensures Linked([c] + list, c)
  {
    c.next := head;
    assert forall i {:trigger ([c] + list)[i].next} :: 0 < i <= |list| ==> ([c] + list)[i] == list[i - 1];
  }

  /** The walk of client_destroy over the links: unlinks c, wherever it stands in the list. */
  method Unlink(head: ClientNode, c: ClientNode, ghost list: seq<ClientNode>, ghost k: nat) returns (first: ClientNode?)
    requires Linked(list, head) && k < |list| && list[k] == c
    requires forall i, j :: 0 <= i < j < |list| ==> list[i] != list[j]
    modifies list`next
    ensures Linked(Without(list, k), first)
  {
    var prev: ClientNode?, cur := null, head;
    ghost var i := 0;
    while cur != c
      invariant 0 <= i <= k && cur == list[i]
      invariant prev == if i == 0 then null else list[i - 1]
      invariant Linked(list, head)
      decreases k - i
    {
      prev, cur := cur, cur.next;
      i := i + 1;
    }
    ghost var rest := Without(list, k);
    assert i == k;
    if prev == null {
      assert rest != [] ==> rest[0] == list[1];
      return c.next;
    }
    prev.next := c.next;
    assert rest[0] == list[0];
    forall j | 0 <= j < |rest| ensures rest[j].next == if j + 1 < |rest| then rest[j + 1] else null {
      assert rest[j] == list[if j < k then j else j + 1];
      if j + 1 < |rest| { assert rest[j + 1] == list[if j + 1 < k then j + 1 else j + 2]; }
    }
    return head;
  }

  class Registry {
    const table: Table<ClientNode>
    var head: ClientNode?
    var count: int
    /** The clients in list order. */
    ghost var list: seq<ClientNode>

    ghost predicate Valid()
      reads this, list, table, table.slots
    {
      && table.Valid()
      && Linked(list, head) && DistinctFds(list)
      && count == |list| <= MAX_CLIENTS
      && table.contents == IndexOf(list)
    }

    constructor ()
      ensures Valid() && list == [] && fresh(table) && fresh(table.slots)
    {
      table := new Table<ClientNode>();
      head, count, list := null, 0, [];
    }

    /** A connection is refused exactly at the cap or when memory runs out; the table insert never fails. */
    method Create(fd: int, uid: nat, memory: bool) returns (c: ClientNode?)
      requires Valid() && fd >= 0 && fd !in table.contents
      modifies this, table, table.slots
      ensures Valid()
      ensures c != null <==> old(count) < MAX_CLIENTS && memory
      ensures c == null ==> list == old(list)
      ensures c != null ==> fresh(c) && c.fd == fd && c.uid == uid && list == [c] + old(list)
    {
      if count >= MAX_CLIENTS || !memory {
        return null;
      }
      IndexSize(list);
      c := new ClientNode(fd, uid);
      IndexAdd(list, c);
      var ok := table.Insert(fd, c);
      assert ok;
      Link(c, head, list);
      head := c;
      count := count + 1;
      list := [c] + list;
    }

    method Find(fd: int) returns (r: Option<ClientNode>)
      requires Valid() && fd >= 0
      ensures r.Some? <==> exists c :: c in list && c.fd == fd
      ensures r.Some? ==> r.value in list && r.value.fd == fd
    {
      r := table.Find(fd);
      if r.Some? {
        IndexSound(list, fd);
      } else {
        forall i | 0 <= i < |list| ensures list[i].fd != fd {
          IndexComplete(list, i);
        }
      }
    }

    method Destroy(c: ClientNode) returns (ghost k: nat)
      requires Valid() && c in list
      modifies this, table, table.slots, list`next
      ensures Valid()
      ensures k < |old(list)| && old(list)[k] == c && list == Without(old(list), k)
    {
      k :| 0 <= k < |list| && list[k] == c;
      IndexDrop(list, k);
      IndexComplete(list, k);
      NoClientTwice(list);
      table.Remove(c.fd);
      head := Unlink(head, c, list, k);
      count := count - 1;
      list := Without(list, k);
    }
  }
}
