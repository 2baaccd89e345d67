# LRU cache of file locations, in Dafny

A model of the fixed-capacity least-recently-used cache in `NM/LRU.c`. The
cache maps a file name to an `(ip, port)` record. It keeps its records in
two structures:

- a bucket table of `2 * capacity` slots, indexed by a djb2-style string hash;
- a doubly linked recency list, running from `head` (most recently used) to
  `tail` (least recently used).

`addToCache` either updates the record in the name's bucket or inserts a new
one, evicting the tail first when the cache is full. `getFromCache` returns
the record in the name's bucket and promotes it to the head.

The project has three modules:

- `hashing.dfy` (`Hashing`): the hash routine as a loop over the characters
  with 32-bit wrap-around. It is proved equal to a recursive definition,
  `Djb2`, and to its bucket, `Bucket`.
- `lru_spec.dfy` (`LruSpec`): the cache as a value, a sequence of entries from
  most to least recently used. `Put` and `Get` give the effect of
  `addToCache` and `getFromCache` on that sequence. The lemmas prove:
  - a bounded size;
  - one entry per bucket;
  - that a read after a write sees the write;
  - that a repeated read is stable;
  - the invariant over any sequence of calls;
  - concrete runs on a cache of capacity 2.
- `lru_cache.dfy` (`LruCache`): the C structures as classes. `Node` and
  `HashMap` are updated in place, and `LRUCache` has `head`, `tail`,
  `currentSize`, `capacity` and the table array. A ghost sequence `nodes`
  lists the list from head to tail. `Valid()` states that:
  - `prev` is the exact inverse of `next`;
  - `head->prev` and `tail->next` are null;
  - `currentSize` equals the length of the list;
  - `currentSize` equals the number of occupied slots;
  - each node sits in the slot its own file name hashes to;
  - each occupied slot holds a listed node.

  Every mutator is proved to preserve `Valid()` and to change the list of
  records exactly as `Put`, `Get`, `Promote` or `DropLast` does.

The model follows the code as written. A lookup compares bucket indices only
and never compares file names (NM/LRU.c:79-82, 109-112). A different name
that lands in an occupied bucket is therefore a hit on the occupant:
- `addToCache` overwrites the occupant's ip and port, and the occupant keeps
  its own file name;
- `getFromCache` returns the occupant.

So two distinct names never coexist when they share a bucket: storing the
second overwrites the ip and port of the first, and a lookup of either name
returns the first name's node with those values. `CollisionHitsOccupant`
exhibits the behaviour on a concrete collision.

The table still holds at most one node per bucket: a new node is only ever
stored into an empty slot (NM/LRU.c:88-96).

## Model

| member | source | states |
|---|---|---|
| Hashing.Djb2 | NM/LRU.c:4-6 | The accumulator after consuming a name: seed 5381, then `33 * h + c` per character modulo 2^32, always below 2^32 |
| Hashing.Bucket | NM/LRU.c:7 | The accumulator reduced modulo the table size is a valid slot, below `size` |
| Hashing.ShiftAddStep | NM/LRU.c:6 | `(h << 5) + h + c` computed in 32-bit unsigned arithmetic equals `33 * h + c` modulo 2^32 |
| Hashing.Hash | NM/LRU.c:3-8 | The loop returns `Bucket(str, size)`, a slot index below `size`, for every `size > 0` |
| LruCache.Node.constructor | NM/LRU.c:11-18 | `createCacheNode`: a fresh node holding the given name, ip and port, with null `prev` and `next` |
| LruCache.HashMap.constructor | NM/LRU.c:21-26 | `initHashMap`: a fresh table of `size` slots, every slot null as `calloc` leaves it |
| LruCache.OccupiedAllNull | NM/LRU.c:23 | A zero-filled table has no occupied slot |
| LruCache.OccupiedUpdate | NM/LRU.c:96 | Writing one slot changes the count of occupied slots by what was removed and what was stored |
| LruCache.LRUCache.constructor | NM/LRU.c:29-36 | `initLRUCache`: null `head` and `tail`, `currentSize == 0`, a table of `2 * capacity` all-null slots, no records, and the cache invariant holds |
| LruCache.LRUCache.ValidBucketsDistinct | NM/LRU.c:88-96 | In every valid state no two resident records share a bucket |
| LruCache.LRUCache.BucketAgreesWithList | NM/LRU.c:79-82 | A slot is null exactly when no resident record hashes to it; otherwise it holds the listed node that the value-level lookup `FindBucket` finds, with that node's record |
| LruCache.IndexedPromote | NM/LRU.c:39-56 | Reordering the list by a promotion keeps the table indexing exactly the listed nodes |
| LruCache.IndexedAdd | NM/LRU.c:95-96 | Storing a new node into its empty bucket indexes the list with the node in front |
| LruCache.IndexedDropLast | NM/LRU.c:68-69 | Clearing the last node's bucket indexes the list without that node |
| LruCache.EntriesOfPromote | NM/LRU.c:39-56 | Promoting a node in the list promotes its record in the list of records |
| LruCache.EntriesOfDropLast | NM/LRU.c:62-66 | Detaching the last node drops the last record |
| LruCache.LRUCache.Unlink | NM/LRU.c:43-46 | Joining the neighbours of a non-head node leaves a well-linked list without it; the tail moves to its predecessor if it was the tail |
| LruCache.LRUCache.LinkAtHead | NM/LRU.c:97-101 | Linking an unlisted node with null `prev` in front of the head gives a well-linked list with it first; it also becomes the tail if the list was empty |
| LruCache.LRUCache.Relink | NM/LRU.c:42-55 | Unlinking a non-head node and relinking it in front yields the linked list `Promote(nodes, k)`; the tail rule of `moveToHead` holds |
| LruCache.LRUCache.Reorder | NM/LRU.c:42-55 | The relinked list and its records become their promotions |
| LruCache.LRUCache.MoveToHead | NM/LRU.c:39-56 | No change at all when the node is already `head`. Otherwise the node becomes `head` with null `prev`, the list becomes its promotion (same nodes, the others in their old order), the tail moves to the old predecessor if the node was the tail, and the table and `currentSize` are unchanged |
| LruCache.LRUCache.UnlinkTail | NM/LRU.c:62-66 | Detaching the last node leaves a well-linked list of the others, with `head` null if it was the only node |
| LruCache.LRUCache.PopBack | NM/LRU.c:62-74 | The detached node is the old last one, it leaves the list, the footprint and the records, and the count drops by one |
| LruCache.LRUCache.DropTail | NM/LRU.c:62-74 | On a non-empty list: the last node is detached, its bucket (the hash of its own name) is cleared and nothing else in the table changes, and `currentSize` drops by one |
| LruCache.LRUCache.RemoveTail | NM/LRU.c:59-75 | On an empty list nothing changes; otherwise it acts as `DropTail`; the records become `DropLast` of the old ones; the invariant holds |
| LruCache.LRUCache.Refresh | NM/LRU.c:84-87 | The hit branch: the node takes the new ip and port, keeps its file name, and is promoted; the node list is the old one with that node moved to the front, the table is not written, and the count and footprint are unchanged |
| LruCache.LRUCache.PushFront | NM/LRU.c:97-103 | A new node is linked in front, and the list, the records and the count grow by it |
| LruCache.LRUCache.Insert | NM/LRU.c:95-103 | A new node holding the arguments goes in front of the old node list and into the empty bucket, no other slot of the table changes, and the count grows by one |
| LruCache.LRUCache.Admit | NM/LRU.c:89-103 | The miss branch: the tail is evicted exactly when `currentSize == capacity`, then the new record is first, so the count never exceeds the capacity. The node list is the new node followed by the old list, less its last node when the cache was full; the table differs from the old one only in the evicted node's bucket (cleared) and the name's bucket (the new node) |
| LruCache.LRUCache.AddToCache | NM/LRU.c:78-105 | The records become `Put` of the old ones. On an occupied bucket the occupant becomes `head`, the node list is the old one with the occupant promoted, the table is untouched and the count unchanged. On an empty bucket a fresh node with the name is `head`, the node list is it followed by the old list (less the evicted tail when full), the table changes only in the evicted node's bucket and the name's bucket, and the count grows by one unless the cache was full. The invariant holds |
| LruCache.LRUCache.Store | NM/LRU.c:80-104 | The same as `AddToCache`, stated for the bucket index that `hash` returned |
| LruCache.LRUCache.GetFromCache | NM/LRU.c:108-117 | Returns the node in the name's bucket. If it is null nothing changes; otherwise it becomes `head`, the node list is the old one with it promoted, and the records become `Get(...).after`. The table is never written. The returned record is the one `Get` finds |
| LruCache.LRUCache.PrintCache | NM/LRU.c:119-127 | The walk from `head` yields exactly the records from most to least recent and changes nothing |
| LruSpec.FindBucket | NM/LRU.c:79-82 | The first position whose record's name hashes to the bucket; none exactly when no resident name hashes there |
| LruSpec.FindBucketUnique | NM/LRU.c:79-82 | When every record has its own bucket, the lookup of a record's bucket finds that record |
| LruSpec.Promote | NM/LRU.c:39-56 | The chosen element becomes the first, and the others follow in their old order |
| LruSpec.DropLast | NM/LRU.c:59-75 | The list without its last record: one element shorter and agreeing with the old list position by position; an empty list is left as it is |
| LruSpec.PromoteAt | NM/LRU.c:39-56 | Where each position of the promoted list comes from: the promoted element first, earlier ones shifted back by one, later ones unmoved |
| LruSpec.PromotePermutes | NM/LRU.c:39-56 | Promotion keeps the same elements: the multiset is unchanged |
| LruSpec.PromoteFirst | NM/LRU.c:40 | Promoting the head leaves the list unchanged |
| LruSpec.Put | NM/LRU.c:78-105 | At least one record results, and the first carries the new ip and port in the name's bucket. On a hit the occupant keeps its file name, the others keep their order and the size is unchanged. On a miss the new name is first, after dropping the last record if the cache was full |
| LruSpec.PutOnHit | NM/LRU.c:82-87 | On an occupied bucket `Put` is the promotion of the updated occupant |
| LruSpec.PutOnMiss | NM/LRU.c:88-104 | On an empty bucket `Put` puts the new record in front of the list, after dropping its last record when it was full |
| LruSpec.Get | NM/LRU.c:108-117 | Nothing is found and nothing changes exactly when no resident name hashes to the name's bucket. Otherwise the found record is resident, in that bucket, and first afterwards, with the size unchanged |
| LruSpec.GetPermutes | NM/LRU.c:108-117 | A lookup only reorders the records |
| LruSpec.PutBounded | NM/LRU.c:90-103 | From a size at most the capacity, `addToCache` stays within the capacity, with the exact new size for a hit, a miss with room and a miss when full |
| LruSpec.PutKeepsBucketsDistinct | NM/LRU.c:82-96 | `addToCache` keeps one record per bucket |
| LruSpec.PromoteKeepsBucketsDistinct | NM/LRU.c:39-56 | Promotion keeps one record per bucket |
| LruSpec.GetAfterPut | NM/LRU.c:78-117 | For any list, a lookup of the name just stored finds the new ip and port, and the order is left as it is |
| LruSpec.GetTwice | NM/LRU.c:108-117 | For any list, a second lookup of the same name returns the same result and changes nothing |
| LruSpec.RunKeepsInvariant | NM/LRU.c:78-117 | From a valid state, no sequence of `addToCache` and `getFromCache` calls exceeds the capacity or puts two records into one bucket |
| LruSpec.SmallTableBuckets | NM/LRU.c:3-8 | In a 4-slot table the names "a", "b", "c" and "e" hash to buckets 2, 3, 0 and 2 |
| LruSpec.EvictsLeastRecent | NM/LRU.c:88-104 | With capacity 2, storing a, b and then c evicts a and leaves c, b |
| LruSpec.ReadRefreshesRecency | NM/LRU.c:108-117 | With capacity 2, storing a and b, reading a and then storing c evicts b and leaves c, a |
| LruSpec.UpdateInPlace | NM/LRU.c:82-87 | Storing the same name twice keeps one record, with the second ip and port |
| LruSpec.CollisionHitsOccupant | NM/LRU.c:79-87 | As written, storing "e" into the bucket of "a" overwrites the ip and port of "a" under its own name, and reading "e" returns that record |

## Left out

- Allocation and release (`malloc`, `calloc`, `strdup`, `free`) and their failure cases. Nodes and tables are fresh objects that never fail. A freed node simply leaves the list, the table and the footprint `Repr`. `strdup` copies are immutable sequences. Dangling pointers that a caller keeps after an eviction are not modelled. Nor is aliasing during a call: the hit path frees the occupant's old `ip` before copying the argument (NM/LRU.c:84-85), and at full capacity the miss path frees the evicted node's strings (NM/LRU.c:71-72) before `createCacheNode` copies the arguments (NM/LRU.c:95), so an `ip` or `fileName` argument that points into those buffers (such as `n->ip` of a node an earlier `getFromCache` returned) is read after it is freed; the model always reads the argument's value.
- The `printf` output of `printCache`. `PrintCache` returns the `(fileName, ip, port)` records it would print, in order.
- The signedness of C `char`. Characters are read as unsigned codes 1..255, and NUL ends a string. With a signed `char`, bytes of 128 and above would be added as negative values.
- `capacity <= 0`. The constructor requires `capacity >= 1`, so the table has `2 * capacity > 0` slots and `hash % size` is defined.
- Overflow of `2 * capacity` and of `currentSize` as C `int`s. They are unbounded integers here; `currentSize` never exceeds the capacity.
- The header `LRU.h` is not part of this model. The struct fields are inferred from their uses in NM/LRU.c.
- Collision resolution between distinct names (chaining or probing). The code has none: a distinct name that lands in an occupied bucket overwrites the occupant's ip and port, as described above, and the model does the same.
