/**
 * The cache's abstract state and operations as values (NM/LRU.c).
 *
 * The recency list is a sequence of entries, most recently used first. The
 * bucket table is not stored separately: in every reachable state each entry
 * sits in the bucket its own file name hashes to, and no two entries share a
 * bucket (`DistinctBuckets`), so "the node in bucket h" is "the entry whose
 * name hashes to h". The imperative cache in lru_cache.dfy is proved to
 * follow these functions step by step, with `Bucket(name, 2 * capacity)` as
 * the map from names to buckets.
 *
 * Lookups compare bucket indices only, never file names: a different name
 * that falls into an occupied bucket is treated as a hit on the occupant.
 */
module LruSpec {
  import opened Hashing

  datatype Option<T> = None | Some(value: T)

  /** One resident record: the file name it was created for and its location. */
  datatype Entry = Entry(fileName: Name, ip: Name, port: int)

  /** What a lookup returns and the recency list it leaves behind. */
  datatype Lookup = Lookup(found: Option<Entry>, after: seq<Entry>)

  /** How names are mapped to buckets. The cache uses `Bucket(name, 2 * capacity)`;
      the operations below hold for any such map. */
  type BucketMap = Name -> nat

  /** No two resident entries fall into the same bucket. */
  ghost predicate DistinctBuckets(s: seq<Entry>, bucket: BucketMap)
  {
    forall i, j | 0 <= i < j < |s| :: bucket(s[i].fileName) != bucket(s[j].fileName)
  }

  /** The position of the entry occupying bucket `h`, if any (the first one from
      the head, which under `DistinctBuckets` is the only one). */
  function FindBucket(s: seq<Entry>, bucket: BucketMap, h: int): (r: Option<nat>)
    ensures r.Some? ==> r.value < |s| && bucket(s[r.value].fileName) == h
    ensures r.Some? ==> forall i | 0 <= i < r.value :: bucket(s[i].fileName) != h
    ensures r.None? <==> forall i | 0 <= i < |s| :: bucket(s[i].fileName) != h
  {
    if s == [] then None
    else if bucket(s[0].fileName) == h then Some(0)
    else match FindBucket(s[1..], bucket, h)
      case None => None
      case Some(k) => Some(k + 1)
  }

  /** Moving the element at position `k` to the front (`moveToHead`): it becomes
      the first element, the elements before it shift back by one, those after
      it stay where they were. */
  function Promote<T>(s: seq<T>, k: nat): (r: seq<T>)
    requires k < |s|
    ensures |r| == |s| && r[0] == s[k] && r[1..] == s[..k] + s[k + 1..]
  {
    assert s == s[..k] + [s[k]] + s[k + 1..];
    [s[k]] + (s[..k] + s[k + 1..])
  }

  /** Where each position of a promoted sequence comes from. */
  lemma PromoteAt<T>(s: seq<T>, k: nat, i: nat)
    requires k < |s| && i < |s|
    ensures Promote(s, k)[i] == if i == 0 then s[k] else if i <= k then s[i - 1] else s[i]
  {
    var r := Promote(s, k);
    if i > 0 {
      assert r[i] == r[1..][i - 1] == (s[..k] + s[k + 1..])[i - 1];
    }
  }

  /** Promotion only reorders: the same elements, each as often as before. */
  lemma PromotePermutes<T>(s: seq<T>, k: nat)
    requires k < |s|
    ensures multiset(Promote(s, k)) == multiset(s)
  {
    assert s == s[..k] + [s[k]] + s[k + 1..];
  }

  /** Promoting the first element changes nothing. */
  lemma PromoteFirst<T>(s: seq<T>)
    requires |s| > 0
    ensures Promote(s, 0) == s
  {
    assert s == [s[0]] + s[1..];
  }

  /** Detaching the last element (`removeTail`): a prefix one element shorter; an
      empty list is left as it is. */
  function DropLast<T>(s: seq<T>): (r: seq<T>)
    ensures |r| == (if s == [] then 0 else |s| - 1) && forall i | 0 <= i < |r| :: r[i] == s[i]
  {
    if s == [] then [] else s[..|s| - 1]
  }

  /** `addToCache(cache, name, ip, port)` on a cache of `cap` entries whose names
      are placed by `bucket`. If the name's bucket is occupied, that entry keeps its
      own file name, takes the new ip and port, and is promoted. Otherwise the
      tail is evicted when the cache is full and a new entry goes in front. */
  function Put(s: seq<Entry>, bucket: BucketMap, cap: int, name: Name, ip: Name, port: int): (r: seq<Entry>)
    ensures |r| >= 1 && r[0].ip == ip && r[0].port == port
    ensures bucket(r[0].fileName) == bucket(name)
    ensures FindBucket(s, bucket, bucket(name)).Some? ==>
      var k := FindBucket(s, bucket, bucket(name)).value;
      |r| == |s| && r[0].fileName == s[k].fileName && r[1..] == s[..k] + s[k + 1..]
    ensures FindBucket(s, bucket, bucket(name)).None? ==>
      r[0].fileName == name && r[1..] == (if |s| == cap then DropLast(s) else s)
  {
    var h := bucket(name);
    match FindBucket(s, bucket, h)
    case Some(k) => Promote(s[k := Entry(s[k].fileName, ip, port)], k)
    case None => [Entry(name, ip, port)] + (if |s| == cap then DropLast(s) else s)
  }

  /** `Put` when the name's bucket is occupied by the entry at position `k`. */
  lemma PutOnHit(s: seq<Entry>, bucket: BucketMap, cap: int, name: Name, ip: Name, port: int, k: nat)
    requires FindBucket(s, bucket, bucket(name)) == Some(k)
    ensures Put(s, bucket, cap, name, ip, port) == Promote(s[k := Entry(s[k].fileName, ip, port)], k)
  {
  }

  /** `Put` when the name's bucket is empty. */
  lemma PutOnMiss(s: seq<Entry>, bucket: BucketMap, cap: int, name: Name, ip: Name, port: int)
    requires FindBucket(s, bucket, bucket(name)).None?
    ensures Put(s, bucket, cap, name, ip, port) == [Entry(name, ip, port)] + (if |s| == cap then DropLast(s) else s)
  {
  }

  /** `getFromCache(cache, name)`: the entry occupying the name's bucket, promoted
      to the front; on an empty bucket, nothing and no change. */
  function Get(s: seq<Entry>, bucket: BucketMap, name: Name): (r: Lookup)
    ensures r.found.None? ==> r.after == s
    ensures r.found.None? <==> forall i | 0 <= i < |s| :: bucket(s[i].fileName) != bucket(name)
    ensures r.found.Some? ==> |r.after| == |s| > 0 && r.after[0] == r.found.value && r.found.value in s
    ensures r.found.Some? ==> bucket(r.found.value.fileName) == bucket(name)
  {
    match FindBucket(s, bucket, bucket(name))
    case Some(k) => Lookup(Some(s[k]), Promote(s, k))
    case None => Lookup(None, s)
  }

  /** A lookup only reorders the cache: the same entries, each as often as before. */
  lemma GetPermutes(s: seq<Entry>, bucket: BucketMap, name: Name)
    ensures multiset(Get(s, bucket, name).after) == multiset(s)
  {
    match FindBucket(s, bucket, bucket(name))
    case Some(k) => PromotePermutes(s, k);
    case None =>
  }

  // ---------------------------------------------------------------------------
  // Properties of the operations
  // ---------------------------------------------------------------------------

  /** Under `DistinctBuckets`, the entry in bucket `h` is the only one there. */
  lemma {:induction false} FindBucketUnique(s: seq<Entry>, bucket: BucketMap, i: nat)
    requires DistinctBuckets(s, bucket) && i < |s|
    ensures FindBucket(s, bucket, bucket(s[i].fileName)) == Some(i)
  {
    var h := bucket(s[i].fileName);
    var r := FindBucket(s, bucket, h);
    assert r.Some?;
  }

  /** `addToCache` never lets the cache grow past its capacity: a hit keeps the
      size, a miss below capacity adds one, a miss at capacity evicts one first. */
  lemma PutBounded(s: seq<Entry>, bucket: BucketMap, cap: int, name: Name, ip: Name, port: int)
    requires cap >= 1 && |s| <= cap
    ensures |Put(s, bucket, cap, name, ip, port)| <= cap
    ensures |Put(s, bucket, cap, name, ip, port)| == if |s| < cap then |s| + 1 - (if FindBucket(s, bucket, bucket(name)).Some? then 1 else 0) else cap
  {
  }

  /** `addToCache` keeps every entry in a bucket of its own: a hit only
      reorders, a miss uses a bucket no resident entry occupies. */
  lemma {:induction false} PutKeepsBucketsDistinct(s: seq<Entry>, bucket: BucketMap, cap: int, name: Name, ip: Name, port: int)
    requires DistinctBuckets(s, bucket)
    ensures DistinctBuckets(Put(s, bucket, cap, name, ip, port), bucket)
  {
    var h := bucket(name);
    var r := Put(s, bucket, cap, name, ip, port);
    match FindBucket(s, bucket, h)
    case Some(k) =>
      var u := s[k := Entry(s[k].fileName, ip, port)];
      assert forall i | 0 <= i < |s| :: bucket(u[i].fileName) == bucket(s[i].fileName);
      assert DistinctBuckets(u, bucket);
      PromoteKeepsBucketsDistinct(u, bucket, k);
    case None =>
      var rest := if |s| == cap then DropLast(s) else s;
      assert r == [Entry(name, ip, port)] + rest;
      assert forall i | 0 <= i < |rest| :: rest[i] == s[i];
      forall i, j | 0 <= i < j < |r|
        ensures bucket(r[i].fileName) != bucket(r[j].fileName)
      {
        if i == 0 {
          assert r[j] == s[j - 1];
        } else {
          assert r[i] == s[i - 1] && r[j] == s[j - 1];
        }
      }
  }

  lemma {:induction false} PromoteKeepsBucketsDistinct(s: seq<Entry>, bucket: BucketMap, k: nat)
    requires k < |s| && DistinctBuckets(s, bucket)
    ensures DistinctBuckets(Promote(s, k), bucket)
  {
    var r := Promote(s, k);
    forall i, j | 0 <= i < j < |r|
      ensures bucket(r[i].fileName) != bucket(r[j].fileName)
    {
      PromoteAt(s, k, i);
      PromoteAt(s, k, j);
      var si := if i == 0 then k else if i <= k then i - 1 else i;
      var sj := if j == 0 then k else if j <= k then j - 1 else j;
      assert r[i] == s[si] && r[j] == s[sj];
      if si < sj {
        assert bucket(s[si].fileName) != bucket(s[sj].fileName);
      } else {
        assert bucket(s[sj].fileName) != bucket(s[si].fileName);
      }
    }
  }

  /** A lookup right after storing a name finds the value just stored, and
      leaves the order alone: the entry is already at the front. */
  lemma {:induction false} GetAfterPut(s: seq<Entry>, bucket: BucketMap, cap: int, name: Name, ip: Name, port: int)
    ensures var r := Put(s, bucket, cap, name, ip, port);
      Get(r, bucket, name).found.Some? &&
      Get(r, bucket, name).found.value.ip == ip &&
      Get(r, bucket, name).found.value.port == port &&
      Get(r, bucket, name).after == r
  {
    var r := Put(s, bucket, cap, name, ip, port);
    assert FindBucket(r, bucket, bucket(name)) == Some(0);
    PromoteFirst(r);
  }

  /** Reading the same name twice in a row: the second read returns the same
      entry and changes nothing. */
  lemma {:induction false} GetTwice(s: seq<Entry>, bucket: BucketMap, name: Name)
    ensures var first := Get(s, bucket, name);
      Get(first.after, bucket, name) == first
  {
    var first := Get(s, bucket, name);
    match FindBucket(s, bucket, bucket(name))
    case None =>
    case Some(k) =>
      assert FindBucket(first.after, bucket, bucket(name)) == Some(0);
      PromoteFirst(first.after);
  }

  // ---------------------------------------------------------------------------
  // Any sequence of calls from a well-formed state
  // ---------------------------------------------------------------------------

  datatype Op = AddToCache(name: Name, ip: Name, port: int) | GetFromCache(name: Name)

  /** The recency list after running `ops` from `s`. */
  function Run(s: seq<Entry>, bucket: BucketMap, cap: int, ops: seq<Op>): seq<Entry>
    decreases |ops|
  {
    if ops == [] then s
    else
      var s' := match ops[0]
        case AddToCache(name, ip, port) => Put(s, bucket, cap, name, ip, port)
        case GetFromCache(name) => Get(s, bucket, name).after;
      Run(s', bucket, cap, ops[1..])
  }

  /** From any state within capacity and with at most one entry per bucket (an
      empty cache among them), no sequence of `addToCache` and `getFromCache`
      calls makes the cache exceed its capacity or puts two entries into one
      bucket. */
  lemma {:induction false} RunKeepsInvariant(s: seq<Entry>, bucket: BucketMap, cap: int, ops: seq<Op>)
    requires cap >= 1 && |s| <= cap && DistinctBuckets(s, bucket)
    ensures |Run(s, bucket, cap, ops)| <= cap
    ensures DistinctBuckets(Run(s, bucket, cap, ops), bucket)
    decreases |ops|
  {
    if ops != [] {
      match ops[0]
      case AddToCache(name, ip, port) =>
        PutBounded(s, bucket, cap, name, ip, port);
        PutKeepsBucketsDistinct(s, bucket, cap, name, ip, port);
        RunKeepsInvariant(Put(s, bucket, cap, name, ip, port), bucket, cap, ops[1..]);
      case GetFromCache(name) =>
        var found := FindBucket(s, bucket, bucket(name));
        if found.Some? {
          PromoteKeepsBucketsDistinct(s, bucket, found.value);
        }
        RunKeepsInvariant(Get(s, bucket, name).after, bucket, cap, ops[1..]);
    }
  }

  // ---------------------------------------------------------------------------
  // Concrete runs on a cache of capacity 2 (a table of 4 buckets)
  // ---------------------------------------------------------------------------

  /** The bucket map of a cache of capacity 2. */
  function FourBuckets(s: Name): nat
  {
    Bucket(s, 4)
  }

  /** The names "a", "b", "c" and "e" fall into buckets 2, 3, 0 and 2 of a
      4-slot table: "e" collides with "a". */
  lemma SmallTableBuckets()
    ensures FourBuckets([97]) == 2 && FourBuckets([98]) == 3
    ensures FourBuckets([99]) == 0 && FourBuckets([101]) == 2
  {
    assert [97][..0] == [] && [98][..0] == [] && [99][..0] == [] && [101][..0] == [];
  }

  /** Three distinct names into a cache of two: the first one stored is evicted. */
  lemma EvictsLeastRecent()
    ensures Run([], FourBuckets, 2, [AddToCache([97], [49], 1), AddToCache([98], [50], 2), AddToCache([99], [51], 3)])
      == [Entry([99], [51], 3), Entry([98], [50], 2)]
  {
    SmallTableBuckets();
  }

  /** Reading the oldest name makes it the most recent, so the next eviction
      takes the other one. */
  lemma ReadRefreshesRecency()
    ensures Run([], FourBuckets, 2, [AddToCache([97], [49], 1), AddToCache([98], [50], 2), GetFromCache([97]), AddToCache([99], [51], 3)])
      == [Entry([99], [51], 3), Entry([97], [49], 1)]
  {
    SmallTableBuckets();
  }

  /** Storing a name again replaces its ip and port and keeps one entry. */
  lemma UpdateInPlace()
    ensures Run([], FourBuckets, 2, [AddToCache([97], [49], 1), AddToCache([97], [50], 2)]) == [Entry([97], [50], 2)]
  {
    SmallTableBuckets();
  }

  /** As written, a different name that hashes to an occupied bucket is a hit
      on the occupant: storing "e" overwrites the ip and port of "a", which
      keeps its own file name, and reading "e" returns that entry. */
  lemma CollisionHitsOccupant()
    ensures var s := Run([], FourBuckets, 2, [AddToCache([97], [49], 1), AddToCache([101], [50], 2)]);
      s == [Entry([97], [50], 2)] && Get(s, FourBuckets, [101]).found == Some(Entry([97], [50], 2))
  {
    SmallTableBuckets();
  }
}
