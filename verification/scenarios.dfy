/**
 * End-to-end runs of the cache with each policy, for arbitrary distinct keys A, B, C, D:
 * which entry a full cache evicts, what the erase callback sees, and how LRU's Erase lets the
 * policy drift away from the stored keys.
 */
module Scenarios {
  import opened ListOps
  import opened PolicyContract
  import opened Cache
  import opened LruCachePolicy

  /** Three inserts into an empty policy leave C, B, A from front to back. */
  lemma ThreeInserts<K>(kind: PolicyKind, a: K, b: K, c: K)
    requires kind != NoPolicy
    ensures Inserted(Inserted(Inserted(EmptyState(kind), a), b), c).order == [c, b, a]
  {
  }

  /** After inserting A, B, C, FIFO's only candidate is A and LIFO's only candidate is C. */
  lemma CandidateAfterThree<K>(kind: PolicyKind, a: K, b: K, c: K, v: K)
    requires kind == Fifo || kind == Lifo
    requires IsCandidate(Inserted(Inserted(Inserted(EmptyState(kind), a), b), c), v)
    ensures v == if kind == Fifo then a else c
  {
    ThreeInserts(kind, a, b, c);
  }

  /** After inserting A, B, C, an LRU access to A makes B the least recently used key. */
  lemma LruTouchOldest<K>(a: K, b: K, c: K)
    requires a != b && a != c && b != c
    ensures Touched(Inserted(Inserted(Inserted(EmptyState(Lru), a), b), c), a) == LruState([a, c, b])
  {
    ThreeInserts(Lru, a, b, c);
    assert IndexOf([c, b, a], a) == 2;
  }

  /** Insert A, B, C, touch A, touch B: the LRU order is B, A, C. */
  lemma LruDocTouches<K>(a: K, b: K, c: K)
    requires a != b && a != c && b != c
    ensures Touched(Touched(Inserted(Inserted(Inserted(EmptyState(Lru), a), b), c), a), b) == LruState([b, a, c])
  {
    LruTouchOldest(a, b, c);
    TouchBackOfThree([a, c, b]);
  }

  /**
   * The rest of that run: from B, A, C the candidate is C, its back; erasing it and inserting
   * D leaves D, B, A, and C is no longer tracked.
   */
  lemma LruDocEvict<K>(a: K, b: K, c: K, d: K)
    requires a != b && a != c && b != c && d != c
    ensures IsCandidate(LruState([b, a, c]), c)
    ensures Inserted(Erased(LruState([b, a, c]), c), d) == LruState([d, b, a])
    ensures c !in Tracked(Inserted(Erased(LruState([b, a, c]), c), d))
  {
    assert PopBack([b, a, c]) == [b, a];
  }

  /**
   * A cache of maximum size 3 after Put A, B, C: full, synced, nothing evicted, and the policy
   * has seen the three insertions in order.
   */
  method FillThree<K(==)>(kind: PolicyKind, a: K, b: K, c: K) returns (cache: FixedSizedCache<K, int>)
    requires a != b && a != c && b != c
    ensures fresh(cache) && fresh(cache.cachePolicy.Obj())
    ensures cache.Valid() && cache.Synced() && cache.maxCacheSize == 3 && cache.onEraseLog == []
    ensures cache.cacheItems == map[a := 1, b := 2, c := 3]
    ensures cache.cachePolicy.State() == Inserted(Inserted(Inserted(EmptyState(kind), a), b), c)
  {
    cache := new FixedSizedCache<K, int>(3, kind);
    cache.Put(a, 1);
    cache.Put(b, 2);
    cache.Put(c, 3);
  }

  /** FIFO, maximum size 3: Put A, B, C, D evicts A, the oldest insertion. */
  method FifoScenario<K(==)>(a: K, b: K, c: K, d: K)
    returns (log: seq<(K, int)>, hasA: bool, hasB: bool, hasC: bool, hasD: bool)
    requires a != b && a != c && a != d && b != c && b != d && c != d
    ensures log == [(a, 1)] && !hasA && hasB && hasC && hasD
  {
    var cache := FillThree(Fifo, a, b, c);
    cache.Put(d, 4);
    CandidateAfterThree(Fifo, a, b, c, cache.onEraseLog[0].0);
    log := cache.onEraseLog;
    hasA := cache.Cached(a);
    hasB := cache.Cached(b);
    hasC := cache.Cached(c);
    hasD := cache.Cached(d);
  }

  /** LIFO, maximum size 3: Put A, B, C, D evicts C, the newest insertion before D. */
  method LifoScenario<K(==)>(a: K, b: K, c: K, d: K)
    returns (log: seq<(K, int)>, hasA: bool, hasB: bool, hasC: bool, hasD: bool)
    requires a != b && a != c && a != d && b != c && b != d && c != d
    ensures log == [(c, 3)] && hasA && hasB && !hasC && hasD
  {
    var cache := FillThree(Lifo, a, b, c);
    cache.Put(d, 4);
    CandidateAfterThree(Lifo, a, b, c, cache.onEraseLog[0].0);
    log := cache.onEraseLog;
    hasA := cache.Cached(a);
    hasB := cache.Cached(b);
    hasC := cache.Cached(c);
    hasD := cache.Cached(d);
  }

  /** LRU, maximum size 3: Put A, B, C, Get A, Put D evicts B, which A's access made oldest. */
  method LruScenario<K(==)>(a: K, b: K, c: K, d: K)
    returns (got: Result<int, CacheError>, log: seq<(K, int)>, hasA: bool, hasB: bool, hasC: bool, hasD: bool)
    requires a != b && a != c && a != d && b != c && b != d && c != d
    ensures got == Success(1) && log == [(b, 2)] && hasA && !hasB && hasC && hasD
  {
    var cache := FillThree(Lru, a, b, c);
    LruTouchOldest(a, b, c);
    got := cache.Get(a);
    cache.Put(d, 4);
    log := cache.onEraseLog;
    hasA := cache.Cached(a);
    hasB := cache.Cached(b);
    hasC := cache.Cached(c);
    hasD := cache.Cached(d);
  }

  /** Without a policy, a full cache still evicts exactly one stored entry, but any of them. */
  method NoPolicyScenario<K(==)>(a: K, b: K, c: K, d: K) returns (log: seq<(K, int)>, hasD: bool)
    requires a != b && a != c && a != d && b != c && b != d && c != d
    ensures |log| == 1 && (log[0] == (a, 1) || log[0] == (b, 2) || log[0] == (c, 3)) && hasD
  {
    var cache := FillThree(NoPolicy, a, b, c);
    cache.Put(d, 4);
    log := cache.onEraseLog;
    hasD := cache.Cached(d);
  }

  /**
   * LRU, maximum size 2: after Put A, Put B the back of the list is A. Remove(B) drops B from
   * the map and reports it to the callback, but the policy pops A: the map keeps A while the
   * policy tracks only B.
   */
  method LruRemoveDesync<K(==)>(a: K, b: K)
    returns (removed: bool, log: seq<(K, int)>, hasA: bool, hasB: bool, tracked: seq<K>)
    requires a != b
    ensures removed && log == [(b, 2)] && hasA && !hasB && tracked == [b]
  {
    var cache := new FixedSizedCache<K, int>(2, Lru);
    cache.Put(a, 1);
    cache.Put(b, 2);
    removed := cache.Remove(b);
    log := cache.onEraseLog;
    hasA := cache.Cached(a);
    hasB := cache.Cached(b);
    tracked := cache.cachePolicy.lru.lruQueue;
  }

  /** The cache of `LruRemoveDesync` after Remove(B): valid, but drifted. */
  method DriftedLru<K(==)>(a: K, b: K) returns (cache: FixedSizedCache<K, int>)
    requires a != b
    ensures fresh(cache) && fresh(cache.cachePolicy.Obj()) && cache.Valid() && cache.cachePolicy.LruImpl?
    ensures a in cache.cacheItems && cache.cacheItems[a] == 1 && |cache.cacheItems| == 1
    ensures cache.onEraseLog == [(b, 2)] && cache.cachePolicy.State() == LruState([b])
  {
    cache := new FixedSizedCache<K, int>(2, Lru);
    cache.Put(a, 1);
    cache.Put(b, 2);
    var removed := cache.Remove(b);
  }

  /**
   * The drifted cache stays valid: removing A as well still succeeds, logs A, and pops B from
   * the policy, leaving both map and list empty.
   */
  method LruRemoveAfterDrift<K(==)>(a: K, b: K)
    returns (removedA: bool, log: seq<(K, int)>, size: nat, tracked: seq<K>)
    requires a != b
    ensures removedA && log == [(b, 2), (a, 1)] && size == 0 && tracked == []
  {
    var cache := DriftedLru(a, b);
    removedA := cache.Remove(a);
    log := cache.onEraseLog;
    size := cache.Size();
    tracked := cache.cachePolicy.lru.lruQueue;
  }

  /**
   * The same calls under FIFO forget B in both places, so the cache stays synced and a later
   * Put of C fits beside A without an eviction.
   */
  method FifoRemoveStaysSynced<K(==)>(a: K, b: K, c: K)
    returns (removed: bool, log: seq<(K, int)>, hasA: bool, hasB: bool, hasC: bool)
    requires a != b && a != c && b != c
    ensures removed && log == [(b, 2)] && hasA && !hasB && hasC
  {
    var cache := new FixedSizedCache<K, int>(2, Fifo);
    cache.Put(a, 1);
    cache.Put(b, 2);
    removed := cache.Remove(b);
    cache.Put(c, 3);
    log := cache.onEraseLog;
    hasA := cache.Cached(a);
    hasB := cache.Cached(b);
    hasC := cache.Cached(c);
  }
}
