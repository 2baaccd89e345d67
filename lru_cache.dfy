/**
 * The cache as the C code builds it (NM/LRU.c): heap nodes linked both ways,
 * a bucket table of node pointers, and an `LRUCache` record updated in place.
 *
 * The ghost sequence `nodes` lists the nodes from `head` to `tail`; `Valid()`
 * ties the `prev`/`next` links, `head`, `tail`, `currentSize` and the table to
 * it. Each operation is proved to change the entries exactly as the value-level
 * functions in lru_spec.dfy (`Put` for `addToCache`, `Get` for `getFromCache`,
 * `Promote` for `moveToHead`, `DropLast` for `removeTail`) do.
 */
module LruCache {
  import opened Hashing
  import opened LruSpec

  /** A resident record (`CacheNode`). The file name is never reassigned once
      the node exists; the ip and port are overwritten on an update. */
  class Node {
    const fileName: Name
    var ip: Name
    var port: int
    var prev: Node?
    var next: Node?

    /** `createCacheNode`: a fresh, unlinked node holding copies of its arguments. */
    constructor (fileName: Name, ip: Name, port: int)
      ensures this.fileName == fileName && this.ip == ip && this.port == port
      ensures prev == null && next == null
    {
      this.fileName := fileName;
      this.ip := ip;
      this.port := port;
      prev, next := null, null;
    }
  }

  /** The bucket table (`HashMap`): `size` slots, each empty or holding one node. */
  class HashMap {
    const table: array<Node?>
    const size: int

    /** `initHashMap`: a zero-filled table of `size` slots. */
    constructor (size: nat)
      ensures this.size == size && table.Length == size && fresh(table)
      ensures forall j | 0 <= j < table.Length :: table[j] == null
    {
      table := new Node?[size](_ => null);
      this.size := size;
    }
  }

  /** The number of occupied slots in a table. */
  function Occupied(t: seq<Node?>): (n: nat)
    ensures n <= |t|
  {
    if t == [] then 0 else Occupied(t[..|t| - 1]) + (if t[|t| - 1] != null then 1 else 0)
  }

  /** A table with every slot empty has no occupied slot. */
  lemma {:induction false} OccupiedAllNull(t: seq<Node?>)
    requires forall j | 0 <= j < |t| :: t[j] == null
    ensures Occupied(t) == 0
  {
    if t != [] {
      OccupiedAllNull(t[..|t| - 1]);
    }
  }

  /** Writing one slot changes the count by what was removed and what was put. */
  lemma {:induction false} OccupiedUpdate(t: seq<Node?>, j: nat, x: Node?)
    requires j < |t|
    ensures Occupied(t[j := x]) ==
      Occupied(t) - (if t[j] != null then 1 else 0) + (if x != null then 1 else 0)
  {
    var n := |t| - 1;
    assert t[j := x][..n] == if j == n then t[..n] else t[..n][j := x];
    if j < n {
      OccupiedUpdate(t[..n], j, x);
    }
  }

  /** The value a node stands for. */
  ghost function EntryOf(n: Node): Entry
    reads n`ip, n`port
  {
    Entry(n.fileName, n.ip, n.port)
  }

  /** The values of a list of nodes, in list order. */
  ghost function EntriesOf(ns: seq<Node>): (r: seq<Entry>)
    reads ns`ip, ns`port
    ensures |r| == |ns|
  {
    if ns == [] then [] else [EntryOf(ns[0])] + EntriesOf(ns[1..])
  }

  /** Position `i` of the values is the value of the node at position `i`. */
  lemma {:induction false} EntriesOfAt(ns: seq<Node>)
    ensures forall i | 0 <= i < |ns| :: EntriesOf(ns)[i] == EntryOf(ns[i])
  {
    if ns != [] {
      EntriesOfAt(ns[1..]);
    }
  }

  /** A list of values that agrees with the nodes position by position is their
      values. */
  lemma {:induction false} EntriesMatch(ns: seq<Node>, e: seq<Entry>)
    requires |e| == |ns| && forall i | 0 <= i < |ns| :: e[i] == EntryOf(ns[i])
    ensures EntriesOf(ns) == e
  {
    if ns != [] {
      EntriesMatch(ns[1..], e[1..]);
    }
  }

  /** Promoting a node promotes its value. */
  lemma EntriesOfPromote(ns: seq<Node>, k: nat)
    requires k < |ns|
    ensures EntriesOf(Promote(ns, k)) == Promote(EntriesOf(ns), k)
  {
    EntriesOfAt(ns);
    EntriesOfAt(Promote(ns, k));
    var r := Promote(ns, k);
    var e := Promote(EntriesOf(ns), k);
    forall i | 0 <= i < |r| ensures EntriesOf(r)[i] == e[i] {
      PromoteAt(ns, k, i);
      PromoteAt(EntriesOf(ns), k, i);
    }
  }

  /** Dropping the last node drops the last value. */
  lemma EntriesOfDropLast(ns: seq<Node>)
    ensures EntriesOf(DropLast(ns)) == DropLast(EntriesOf(ns))
  {
    EntriesOfAt(ns);
    EntriesOfAt(DropLast(ns));
  }

  /** The position of a node in a list that holds it. */
  ghost function IndexOf(ns: seq<Node>, n: Node): (k: nat)
    requires n in ns
    ensures k < |ns| && ns[k] == n
  {
    var k :| 0 <= k < |ns| && ns[k] == n; k
  }

  /** No element occurs twice. */
  ghost predicate Distinct<T>(s: seq<T>)
  {
    forall i, j | 0 <= i < j < |s| :: s[i] != s[j]
  }

  lemma DistinctRemove<T>(s: seq<T>, k: nat)
    requires k < |s| && Distinct(s)
    ensures Distinct(s[..k] + s[k + 1..]) && s[k] !in s[..k] + s[k + 1..]
  {
    var r := s[..k] + s[k + 1..];
    forall i, j | 0 <= i < j < |r| ensures r[i] != r[j] {
      assert r[i] == s[if i < k then i else i + 1];
      assert r[j] == s[if j < k then j else j + 1];
    }
    forall i | 0 <= i < |r| ensures r[i] != s[k] {
      assert r[i] == s[if i < k then i else i + 1];
    }
  }

  lemma DistinctDropLast<T>(s: seq<T>)
    requires s != [] && Distinct(s)
    ensures Distinct(s[..|s| - 1]) && s[|s| - 1] !in s[..|s| - 1]
  {
  }

  lemma DistinctCons<T>(x: T, s: seq<T>)
    requires Distinct(s) && x !in s
    ensures Distinct([x] + s)
  {
    var r := [x] + s;
    forall i, j | 0 <= i < j < |r| ensures r[i] != r[j] {
      assert r[j] == s[j - 1];
      if i > 0 {
        assert r[i] == s[i - 1];
      }
    }
  }

  /** `ns` is a doubly linked list running from `head` to `tail`: its nodes are
      distinct, the first has no predecessor, the last no successor, and `prev`
      is the exact inverse of `next`. */
  ghost predicate Linked(ns: seq<Node>, head: Node?, tail: Node?)
    reads ns`prev, ns`next
  {
    && Distinct(ns)
    && head == (if ns == [] then null else ns[0])
    && tail == (if ns == [] then null else ns[|ns| - 1])
    && (forall i {:trigger ns[i].prev} | 0 <= i < |ns| :: ns[i].prev == if i == 0 then null else ns[i - 1])
    && (forall i {:trigger ns[i].next} | 0 <= i < |ns| :: ns[i].next == if i == |ns| - 1 then null else ns[i + 1])
  }

  /** Node `n` sits in the bucket its own file name hashes to. */
  ghost predicate AtHome(t: seq<Node?>, n: Node)
    requires |t| > 0
  {
    t[Bucket(n.fileName, |t|)] == n
  }

  /** Slot `j` is empty or holds a node of `ns` whose file name hashes to `j`. */
  ghost predicate SlotHolds(ns: seq<Node>, t: seq<Node?>, j: int)
    requires 0 <= j < |t|
  {
    t[j] != null ==> t[j] in ns && Bucket(t[j].fileName, |t|) == j
  }

  /** The table `t` indexes exactly the nodes of `ns`: each node sits in the
      bucket of its own file name, an occupied slot holds a node of `ns` whose
      name hashes to that slot, and there are as many occupied slots as nodes.
      (The triggers keep the hash from being unfolded unless a proof asks for
      one node or one slot.) */
  ghost predicate Indexed(ns: seq<Node>, t: seq<Node?>)
    requires |t| > 0
  {
    && (forall i {:trigger AtHome(t, ns[i])} | 0 <= i < |ns| :: AtHome(t, ns[i]))
    && (forall j {:trigger SlotHolds(ns, t, j)} | 0 <= j < |t| :: SlotHolds(ns, t, j))
    && Occupied(t) == |ns|
  }

  /** Reordering the list by a promotion does not disturb the table. */
  lemma {:induction false} IndexedPromote(ns: seq<Node>, t: seq<Node?>, k: nat)
    requires |t| > 0 && k < |ns| && Indexed(ns, t)
    ensures Indexed(Promote(ns, k), t)
  {
    var r := Promote(ns, k);
    forall i | 0 <= i < |r| ensures AtHome(t, r[i]) {
      PromoteAt(ns, k, i);
      var from := if i == 0 then k else if i <= k then i - 1 else i;
      assert AtHome(t, ns[from]);
    }
    forall j | 0 <= j < |t| ensures SlotHolds(r, t, j) {
      assert SlotHolds(ns, t, j);
      if t[j] != null {
        var i := IndexOf(ns, t[j]);
        var to := if i == k then 0 else if i < k then i + 1 else i;
        PromoteAt(ns, k, to);
        assert r[to] == t[j];
      }
    }
  }

  /** Storing a new node into its empty bucket indexes the list with that node
      in front. */
  lemma {:induction false} IndexedAdd(ns: seq<Node>, t: seq<Node?>, n: Node)
    requires |t| > 0 && Indexed(ns, t) && n !in ns
    requires t[Bucket(n.fileName, |t|)] == null
    ensures Indexed([n] + ns, t[Bucket(n.fileName, |t|) := n])
  {
    var j := Bucket(n.fileName, |t|);
    var t' := t[j := n];
    var r := [n] + ns;
    OccupiedUpdate(t, j, n);
    forall i | 0 <= i < |r| ensures AtHome(t', r[i]) {
      if i > 0 {
        assert r[i] == ns[i - 1] && AtHome(t, ns[i - 1]);
      }
    }
    forall x | 0 <= x < |t'| ensures SlotHolds(r, t', x) {
      if x != j {
        assert SlotHolds(ns, t, x);
      }
    }
  }

  /** Clearing the last node's bucket indexes the list without that node. */
  lemma {:induction false} IndexedDropLast(ns: seq<Node>, t: seq<Node?>)
    requires |t| > 0 && ns != [] && Indexed(ns, t)
    requires Distinct(ns)
    ensures var last := ns[|ns| - 1];
      Indexed(ns[..|ns| - 1], t[Bucket(last.fileName, |t|) := null])
  {
    var last := ns[|ns| - 1];
    var j := Bucket(last.fileName, |t|);
    var t' := t[j := null];
    var rest := ns[..|ns| - 1];
    assert AtHome(t, last);
    OccupiedUpdate(t, j, null);
    forall i | 0 <= i < |rest| ensures AtHome(t', rest[i]) {
      assert rest[i] == ns[i] && AtHome(t, ns[i]) && ns[i] != last;
    }
    forall x | 0 <= x < |t'| ensures SlotHolds(rest, t', x) {
      assert SlotHolds(ns, t, x);
      if x != j && t[x] != null {
        var i := IndexOf(ns, t[x]);
        assert i != |ns| - 1;
        assert rest[i] == t'[x];
      }
    }
  }

  /** `f` places every name where `hash` does in a table of `size` slots. (The
      trigger keeps the hash from being unfolded for names no proof asks about.) */
  ghost predicate PlacesBy(f: BucketMap, size: int)
    requires size > 0
  {
    forall s {:trigger Bucket(s, size)} :: f(s) == Bucket(s, size)
  }

  /** The cache (`LRUCache`): the recency list from `head` to `tail`, its length
      `currentSize`, the fixed `capacity`, and a table of `2 * capacity` slots. */
  class LRUCache {
    var head: Node?
    var tail: Node?
    var currentSize: int
    const capacity: int
    const hashMap: HashMap

    /** The bucket of each name: the value-level view of `hash`. */
    ghost const bucket: BucketMap
    /** The list from head to tail. */
    ghost var nodes: seq<Node>
    /** The objects the cache owns: itself, the table and every node. */
    ghost var Repr: set<object>

    ghost predicate Valid()
      reads this, hashMap.table, nodes`prev, nodes`next
      ensures Valid() ==> this in Repr
    {
      && this in Repr && hashMap.table in Repr
      && capacity >= 1 && hashMap.size == 2 * capacity && hashMap.table.Length == hashMap.size
      && PlacesBy(bucket, hashMap.size)
      // the count is the list's length and never exceeds the capacity
      && currentSize == |nodes| <= capacity
      && (forall n | n in nodes :: n in Repr)
      && Linked(nodes, head, tail)
      && Indexed(nodes, hashMap.table[..])
    }

    /** The cached records from most to least recently used. */
    ghost function Entries(): seq<Entry>
      reads this, nodes`ip, nodes`port
    {
      EntriesOf(nodes)
    }

    /** `initLRUCache`: an empty list, a count of zero and an all-empty table
        of `2 * capacity` slots. */
    constructor (capacity: int)
      requires capacity >= 1
      ensures Valid() && fresh(Repr)
      ensures this.capacity == capacity && hashMap.size == 2 * capacity
      ensures head == null && tail == null && currentSize == 0 && Entries() == []
      ensures forall j | 0 <= j < hashMap.table.Length :: hashMap.table[j] == null
    {
      head, tail := null, null;
      hashMap := new HashMap(capacity * 2);
      this.capacity := capacity;
      bucket := (s: Name) => Bucket(s, 2 * capacity);
      currentSize := 0;
      nodes := [];
      new;
      Repr := {this, hashMap.table};
      OccupiedAllNull(hashMap.table[..]);
    }

    /** Every resident record occupies a bucket of its own. */
    lemma ValidBucketsDistinct()
      requires Valid()
      ensures DistinctBuckets(Entries(), bucket)
    {
      var s := Entries();
      EntriesOfAt(nodes);
      forall i, j | 0 <= i < j < |s|
        ensures bucket(s[i].fileName) != bucket(s[j].fileName)
      {
        assert nodes[i] != nodes[j];
        assert AtHome(hashMap.table[..], nodes[i]) && AtHome(hashMap.table[..], nodes[j]);
      }
    }

    /** The table and the list agree: a bucket is empty exactly when no record
        hashes to it, and otherwise holds the record the value-level lookup finds. */
    lemma BucketAgreesWithList(h: int)
      requires Valid() && 0 <= h < hashMap.size
      ensures hashMap.table[h] == null <==> FindBucket(Entries(), bucket, h).None?
      ensures hashMap.table[h] != null ==>
        hashMap.table[h] in nodes && FindBucket(Entries(), bucket, h) == Some(IndexOf(nodes, hashMap.table[h])) &&
        Entries()[IndexOf(nodes, hashMap.table[h])] == EntryOf(hashMap.table[h])
    {
      var s := Entries();
      EntriesOfAt(nodes);
      if hashMap.table[h] != null {
        assert SlotHolds(nodes, hashMap.table[..], h);
        var k := IndexOf(nodes, hashMap.table[h]);
        ValidBucketsDistinct();
        FindBucketUnique(s, bucket, k);
      } else {
        forall i | 0 <= i < |s| ensures bucket(s[i].fileName) != h {
          assert AtHome(hashMap.table[..], nodes[i]);
        }
      }
    }

    /** The first half of `moveToHead`: the node at position `k` (not the head)
        is taken out of the list by joining its neighbours, and the tail moves to
        its predecessor if it was the tail. Its own links are left as they were. */
    method Unlink(node: Node, ghost k: nat)
      requires Linked(nodes, head, tail) && 0 < k < |nodes| && nodes[k] == node
      modifies this`tail, nodes`prev, nodes`next
      ensures Linked(nodes[..k] + nodes[k + 1..], head, tail)
      ensures tail == if old(tail) == node then old(node.prev) else old(tail)
      ensures node.prev == old(node.prev) && node.next == old(node.next)
    {
      if node.prev != null {
        node.prev.next := node.next;
      }
      if node.next != null {
        node.next.prev := node.prev;
      }
      if tail == node {
        tail := node.prev;
      }
      ghost var r := nodes[..k] + nodes[k + 1..];
      DistinctRemove(nodes, k);
      forall i | 0 <= i < |r|
        ensures r[i].prev == (if i == 0 then null else r[i - 1])
        ensures r[i].next == (if i == |r| - 1 then null else r[i + 1])
      {
        if i < k - 1 {
          assert r[i] == nodes[i] && r[i + 1] == nodes[i + 1];
        } else if i == k - 1 {
          assert r[i] == nodes[k - 1];
        } else if i == k {
          assert r[i] == nodes[k + 1];
        } else {
          assert r[i] == nodes[i + 1] && r[i - 1] == nodes[i];
        }
      }
    }

    /** The second half of `moveToHead`, and the end of `addToCache`: a node
        with no predecessor that is not in the list is linked in front of the
        head; it also becomes the tail if the list was empty. */
    method LinkAtHead(node: Node, ghost rest: seq<Node>)
      requires Linked(rest, head, tail) && node !in rest && node.prev == null
      modifies this`head, this`tail, node`next, rest`prev
      ensures Linked([node] + rest, head, tail)
      ensures tail == if old(tail) == null then node else old(tail)
    {
      node.next := head;
      if head != null {
        head.prev := node;
      }
      head := node;
      if tail == null {
        tail := node;
      }
      ghost var r := [node] + rest;
      DistinctCons(node, rest);
      forall i | 0 <= i < |r|
        ensures r[i].prev == (if i == 0 then null else r[i - 1])
        ensures r[i].next == (if i == |r| - 1 then null else r[i + 1])
      {
        if i > 0 {
          assert r[i] == rest[i - 1];
        }
      }
    }

    /** The list part of `moveToHead` for a node at position `k` other than the
        head: unlinked, then linked in front, so the list becomes its promotion. */
    method Relink(node: Node, ghost k: nat)
      requires Linked(nodes, head, tail) && 0 < k < |nodes| && nodes[k] == node
      modifies this`head, this`tail, nodes`prev, nodes`next
      ensures Linked(Promote(nodes, k), head, tail)
      ensures tail == if old(tail) == node then old(node.prev) else old(tail)
    {
      ghost var rest := nodes[..k] + nodes[k + 1..];
      DistinctRemove(nodes, k);
      // remove the node from its current position
      Unlink(node, k);
      // insert it at the head
      node.prev := null;
      LinkAtHead(node, rest);
      ghost var r := Promote(nodes, k);
      assert r == [r[0]] + r[1..];
    }

    /** The whole of `moveToHead` below the table, for a node at position `k`
        other than the head: the list and its values become their promotions. */
    method Reorder(node: Node, ghost k: nat)
      requires Linked(nodes, head, tail) && 0 < k < |nodes| && nodes[k] == node
      modifies this`head, this`tail, this`nodes, nodes`prev, nodes`next
      ensures Linked(nodes, head, tail) && nodes == Promote(old(nodes), k)
      ensures Entries() == Promote(old(Entries()), k)
      ensures tail == if old(tail) == node then old(node.prev) else old(tail)
    {
      ghost var ns := nodes;
      Relink(node, k);
      nodes := Promote(ns, k);
      EntriesOfPromote(ns, k);
    }

    /** The list part of `removeTail`: the last node is detached, its
        predecessor becomes the tail, and the head becomes null if it was the
        only node. */
    method UnlinkTail(ghost ns: seq<Node>)
      requires Linked(ns, head, tail) && ns != []
      modifies this`head, this`tail, ns`next
      ensures Linked(DropLast(ns), head, tail)
    {
      var node := tail;
      if node.prev != null {
        node.prev.next := null;
      } else {
        head := null;
      }
      tail := node.prev;
      ghost var r := DropLast(ns);
      forall i | 0 <= i < |r|
        ensures r[i].prev == (if i == 0 then null else r[i - 1])
        ensures r[i].next == (if i == |r| - 1 then null else r[i + 1])
      {
        assert r[i] == ns[i];
      }
    }

    /** The list part of `removeTail`: the last node is detached and returned,
        and the count, the list and the footprint shrink by it. */
    method PopBack() returns (node: Node)
      requires Linked(nodes, head, tail) && nodes != []
      modifies this`head, this`tail, this`currentSize, this`nodes, this`Repr, nodes`next
      ensures node == old(nodes)[|old(nodes)| - 1] && node !in nodes
      ensures Linked(nodes, head, tail) && nodes == DropLast(old(nodes))
      ensures currentSize == old(currentSize) - 1 && Repr == old(Repr) - {node}
      ensures Entries() == DropLast(old(Entries()))
    {
      ghost var ns := nodes;
      node := tail;
      nodes := DropLast(ns);
      Repr := Repr - {node};
      DistinctDropLast(ns);
      EntriesOfDropLast(ns);
      UnlinkTail(ns);
      currentSize := currentSize - 1;
    }

    /** `moveToHead`: nothing happens when the node is already the head; otherwise
        it is unlinked and relinked in front, the other nodes keep their order,
        and the tail moves to its predecessor if it was the tail. */
    method MoveToHead(node: Node)
      requires Valid() && node in nodes
      modifies Repr
      ensures Valid() && Repr == old(Repr) && currentSize == old(currentSize)
      ensures old(head) == node ==> unchanged(Repr)
      ensures var k := IndexOf(old(nodes), node);
        nodes == Promote(old(nodes), k) && Entries() == Promote(old(Entries()), k)
      ensures head == node && node.prev == null
      ensures old(tail) == node && old(head) != node ==> tail == old(node.prev)
      ensures unchanged(hashMap.table)
    {
      if head == node {
        PromoteFirst(nodes);
        PromoteFirst(Entries());
        return;
      }
      ghost var ns := nodes;
      ghost var k := IndexOf(ns, node);
      Reorder(node, k);
      IndexedPromote(ns, hashMap.table[..], k);
    }

    /** `removeTail` on a non-empty list: the last node is detached, its
        predecessor becomes the tail (and the head becomes null if it was the
        only node), its bucket is cleared and the count drops by one. */
    method DropTail()
      requires Valid() && nodes != []
      modifies Repr
      ensures Valid()
      ensures var last := old(nodes)[|old(nodes)| - 1];
        Repr == old(Repr) - {last} && last !in nodes &&
        hashMap.table[..] == old(hashMap.table[..])[Bucket(last.fileName, hashMap.size) := null]
      ensures currentSize == old(currentSize) - 1
      ensures nodes == DropLast(old(nodes)) && Entries() == DropLast(old(Entries()))
    {
      ghost var ns, t := nodes, hashMap.table[..];
      var node := PopBack();
      var index := Hash(node.fileName, hashMap.size);
      IndexedDropLast(ns, t);
      hashMap.table[index] := null;
      assert hashMap.table[..] == t[index := null];
    }

    /** `removeTail`: on an empty list nothing happens; otherwise the tail is
        dropped as `DropTail` describes. */
    method RemoveTail()
      requires Valid()
      modifies Repr
      ensures Valid()
      ensures old(nodes) == [] ==> Repr == old(Repr) && unchanged(Repr)
      ensures old(nodes) != [] ==>
        var last := old(nodes)[|old(nodes)| - 1];
        Repr == old(Repr) - {last} && last !in nodes &&
        currentSize == old(currentSize) - 1 &&
        hashMap.table[..] == old(hashMap.table[..])[Bucket(last.fileName, hashMap.size) := null]
      ensures nodes == DropLast(old(nodes)) && Entries() == DropLast(old(Entries()))
    {
      if tail == null {
        return;
      }
      DropTail();
    }

    /** The hit branch of `addToCache`: the node takes the new ip and port,
        keeps its file name, and is promoted to the head. */
    method Refresh(node: Node, ip: Name, port: int)
      requires Valid() && node in nodes
      modifies Repr
      ensures Valid() && Repr == old(Repr) && currentSize == old(currentSize) && head == node
      ensures nodes == Promote(old(nodes), IndexOf(old(nodes), node)) && unchanged(hashMap.table)
      ensures var e, k := old(Entries()), IndexOf(old(nodes), node);
        Entries() == Promote(e[k := Entry(e[k].fileName, ip, port)], k)
    {
      ghost var k := IndexOf(nodes, node);
      ghost var e := Entries();
      EntriesOfAt(nodes);
      node.ip := ip;
      node.port := port;
      EntriesMatch(nodes, e[k := Entry(e[k].fileName, ip, port)]);
      MoveToHead(node);
    }

    /** The list part of inserting a new node: it is linked in front, and the
        count, the list and the footprint grow by it. */
    method PushFront(node: Node)
      requires Linked(nodes, head, tail) && node !in nodes && node.prev == null
      modifies this`head, this`tail, this`currentSize, this`nodes, this`Repr, node`next, nodes`prev
      ensures Linked(nodes, head, tail) && nodes == [node] + old(nodes)
      ensures currentSize == old(currentSize) + 1 && Repr == old(Repr) + {node}
      ensures Entries() == [EntryOf(node)] + old(Entries())
    {
      ghost var rest := nodes;
      LinkAtHead(node, rest);
      currentSize := currentSize + 1;
      nodes := [node] + rest;
      Repr := Repr + {node};
      assert nodes[1..] == rest;
    }

    /** The miss branch of `addToCache` once there is room: a new node goes into
        its empty bucket `index` and in front of the list. */
    method Insert(fileName: Name, ip: Name, port: int, index: nat)
      requires Valid() && currentSize < capacity
      requires index == Bucket(fileName, hashMap.size) && hashMap.table[index] == null
      modifies Repr
      ensures Valid() && fresh(head) && Repr == old(Repr) + {head}
      ensures head.fileName == fileName && currentSize == old(currentSize) + 1
      ensures nodes == [head] + old(nodes) && hashMap.table[..] == old(hashMap.table[..])[index := head]
      ensures Entries() == [Entry(fileName, ip, port)] + old(Entries())
    {
      var newNode := new Node(fileName, ip, port);
      ghost var t := hashMap.table[..];
      IndexedAdd(nodes, t, newNode);
      hashMap.table[index] := newNode;
      assert hashMap.table[..] == t[index := newNode];
      PushFront(newNode);
    }

    /** The miss branch of `addToCache`: the tail is evicted when the cache is
        full, then a new node goes into the empty bucket `index` and in front. */
    method Admit(fileName: Name, ip: Name, port: int, index: nat)
      requires Valid()
      requires index == Bucket(fileName, hashMap.size) && hashMap.table[index] == null
      modifies Repr
      ensures Valid() && fresh(Repr - old(Repr)) && fresh(head)
      ensures head.fileName == fileName && hashMap.table[index] == head
      ensures currentSize == if old(currentSize) == capacity then capacity else old(currentSize) + 1
      ensures nodes == [head] + (if old(currentSize) == capacity then DropLast(old(nodes)) else old(nodes))
      ensures hashMap.table[..] == (if old(currentSize) == capacity
        then old(hashMap.table[..])[Bucket(old(tail).fileName, hashMap.size) := null]
        else old(hashMap.table[..]))[index := head]
      ensures Entries() ==
        [Entry(fileName, ip, port)] + (if old(currentSize) == capacity then DropLast(old(Entries())) else old(Entries()))
    {
      // evict if at capacity
      if currentSize == capacity {
        RemoveTail();
      }
      // add the new node
      Insert(fileName, ip, port, index);
    }

    /** `addToCache`: when the name's bucket is occupied, that node takes the new
        ip and port, keeps its own file name and is promoted, and the count is
        unchanged; otherwise, after evicting the tail if the cache is full, a new
        node goes into the bucket and in front of the list, and the count grows. */
    method AddToCache(fileName: Name, ip: Name, port: int)
      requires Valid()
      modifies Repr
      ensures Valid() && fresh(Repr - old(Repr))
      ensures Entries() == Put(old(Entries()), bucket, capacity, fileName, ip, port)
      ensures old(hashMap.table[Bucket(fileName, hashMap.size)]) != null ==>
        head == old(hashMap.table[Bucket(fileName, hashMap.size)]) &&
        currentSize == old(currentSize) && Repr == old(Repr) && head in old(nodes) &&
        nodes == Promote(old(nodes), IndexOf(old(nodes), head)) && unchanged(hashMap.table)
      ensures old(hashMap.table[Bucket(fileName, hashMap.size)]) == null ==>
        fresh(head) && head.fileName == fileName &&
        currentSize == (if old(currentSize) == capacity then capacity else old(currentSize) + 1) &&
        nodes == [head] + (if old(currentSize) == capacity then DropLast(old(nodes)) else old(nodes)) &&
        hashMap.table[..] == (if old(currentSize) == capacity
          then old(hashMap.table[..])[Bucket(old(tail).fileName, hashMap.size) := null]
          else old(hashMap.table[..]))[Bucket(fileName, hashMap.size) := head]
    {
      var index := Hash(fileName, hashMap.size);
      // `hash` reads only its arguments, so the cache is as it was
      assert Valid() && Entries() == old(Entries()) && hashMap.table[..] == old(hashMap.table[..]);
      assert nodes == old(nodes) && tail == old(tail) && currentSize == old(currentSize) && Repr == old(Repr);
      Store(fileName, ip, port, index);
    }

    /** The body of `addToCache` once the name's bucket `index` is known. It has
        `AddToCache`'s contract with `index` for the bucket expression; it exists
        only to split that proof after the call to `hash`. */
    method Store(fileName: Name, ip: Name, port: int, index: nat)
      requires Valid() && index == Bucket(fileName, hashMap.size)
      modifies Repr
      ensures Valid() && fresh(Repr - old(Repr))
      ensures Entries() == Put(old(Entries()), bucket, capacity, fileName, ip, port)
      ensures old(hashMap.table[index]) != null ==>
        head == old(hashMap.table[index]) &&
        currentSize == old(currentSize) && Repr == old(Repr) && head in old(nodes) &&
        nodes == Promote(old(nodes), IndexOf(old(nodes), head)) && unchanged(hashMap.table)
      ensures old(hashMap.table[index]) == null ==>
        fresh(head) && head.fileName == fileName &&
        currentSize == (if old(currentSize) == capacity then capacity else old(currentSize) + 1) &&
        nodes == [head] + (if old(currentSize) == capacity then DropLast(old(nodes)) else old(nodes)) &&
        hashMap.table[..] == (if old(currentSize) == capacity
          then old(hashMap.table[..])[Bucket(old(tail).fileName, hashMap.size) := null]
          else old(hashMap.table[..]))[index := head]
    {
      var existingNode := hashMap.table[index];
      BucketAgreesWithList(index);
      if existingNode != null {
        // update the existing node
        PutOnHit(Entries(), bucket, capacity, fileName, ip, port, IndexOf(nodes, existingNode));
        Refresh(existingNode, ip, port);
      } else {
        PutOnMiss(Entries(), bucket, capacity, fileName, ip, port);
        Admit(fileName, ip, port, index);
      }
    }

    /** `getFromCache`: the node in the name's bucket, promoted to the head; null
        and no change at all when the bucket is empty. */
    method GetFromCache(fileName: Name) returns (node: Node?)
      requires Valid()
      modifies Repr
      ensures Valid() && Repr == old(Repr) && currentSize == old(currentSize)
      ensures node == old(hashMap.table[Bucket(fileName, hashMap.size)])
      ensures node == null ==> unchanged(Repr)
      ensures node != null ==> head == node && node in old(nodes) && nodes == Promote(old(nodes), IndexOf(old(nodes), node))
      ensures unchanged(hashMap.table)
      ensures var r := Get(old(Entries()), bucket, fileName);
        (node == null <==> r.found.None?) &&
        (node != null ==> r.found == Some(EntryOf(node))) &&
        Entries() == r.after
    {
      var index := Hash(fileName, hashMap.size);
      node := hashMap.table[index];
      BucketAgreesWithList(index);
      if node != null {
        MoveToHead(node);
      }
    }

    /** `printCache`: walks the list from head to tail without changing it and
        yields one `fileName -> ip:port` record per node, most recent first. */
    method PrintCache() returns (lines: seq<Entry>)
      requires Valid()
      ensures lines == Entries()
    {
      lines := [];
      var current := head;
      EntriesOfAt(nodes);
      ghost var i := 0;
      while current != null
        invariant 0 <= i <= |nodes|
        invariant current == if i < |nodes| then nodes[i] else null
        invariant lines == Entries()[..i]
        decreases |nodes| - i
      {
        lines := lines + [Entry(current.fileName, current.ip, current.port)];
        current := current.next;
        i := i + 1;
      }
    }
  }
}
