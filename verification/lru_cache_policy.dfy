/**
 * `LRUCachePolicy`: the least recently used key leaves first. Inserted and touched keys go to
 * the front of `lruQueue`, so its back is the key whose last use lies furthest back.
 *
 * `Erase` reproduces the source as written: it ignores its argument and forgets the back
 * of the queue, which is the named key only when that key is the least recently used one.
 */
module LruCachePolicy {
  import opened ListOps

  class LRUCachePolicy<K(==)> {
    /** `lru_queue`, most recently used key at the front. */
    var lruQueue: seq<K>
    /**
     * The key set of `key_finder`, the key -> list-iterator index; the iterator of a key is
     * its unique position in `lruQueue`.
     */
    var keyFinder: set<K>
    /** Logical time of the last insert or touch of every tracked key (model only). */
    ghost var lastUse: map<K, nat>
    /** The next logical time (model only). */
    ghost var clock: nat

    ghost predicate Valid()
      reads this
    {
      NoDup(lruQueue) && keyFinder == Elems(lruQueue) &&
      NewestFirst(lruQueue, lastUse) &&
      AllBefore(lruQueue, lastUse, clock)
    }

    constructor ()
      ensures Valid() && lruQueue == [] && keyFinder == {}
    {
      lruQueue, keyFinder := [], {};
      lastUse, clock := map[], 0;
    }

    /** `emplace_front` and record the new node in the index. */
    method Insert(key: K)
      requires Valid() && key !in keyFinder
      modifies this
      ensures Valid()
      ensures lruQueue == [key] + old(lruQueue) && keyFinder == old(keyFinder) + {key}
      ensures lastUse == old(lastUse)[key := old(clock)] && clock > old(clock)
    {
      PushFrontNewest(lruQueue, lastUse, key, clock);
      lruQueue := [key] + lruQueue;
      keyFinder := keyFinder + {key};
      lastUse := lastUse[key := clock];
      clock := clock + 1;
    }

    /**
     * Splices the key's node to the front. An untracked key would make `key_finder[key]` yield
     * a default iterator, so it is excluded.
     */
    method Touch(key: K)
      requires Valid() && key in keyFinder
      modifies this
      ensures Valid()
      ensures lruQueue == MoveToFront(old(lruQueue), key) && keyFinder == old(keyFinder)
      ensures lastUse == old(lastUse)[key := old(clock)] && clock > old(clock)
    {
      MoveToFrontFacts(lruQueue, key);
      EraseKeyNewest(lruQueue, lastUse, key, clock);
      EraseKeyFacts(lruQueue, key);
      var rest := EraseKey(lruQueue, key);
      PushFrontNewest(rest, lastUse - {key}, key, clock);
      assert (lastUse - {key})[key := clock] == lastUse[key := clock];
      lruQueue := [key] + rest;
      lastUse := lastUse[key := clock];
      clock := clock + 1;
    }

    /**
     * Forgets the least recently used key, whatever key is passed: the back's index entry is
     * erased and the back node popped. An empty queue has no back, so it is excluded.
     */
    method Erase(key: K)
      requires Valid() && lruQueue != []
      modifies this
      ensures Valid()
      ensures lruQueue == PopBack(old(lruQueue))
      ensures keyFinder == old(keyFinder) - {old(lruQueue)[|old(lruQueue)| - 1]}
      ensures lastUse == old(lastUse) - {old(lruQueue)[|old(lruQueue)| - 1]} && clock == old(clock)
    {
      var back := lruQueue[|lruQueue| - 1];
      PopBackNewest(lruQueue, lastUse, clock);
      PopBackFacts(lruQueue);
      keyFinder := keyFinder - {back};
      lruQueue := PopBack(lruQueue);
      lastUse := lastUse - {back};
    }

    /** The back of the queue: the tracked key whose last use lies furthest back. */
    method ReplacementCandidate() returns (key: K)
      requires Valid() && lruQueue != []
      ensures key == lruQueue[|lruQueue| - 1]
      ensures key in keyFinder && forall k :: k in keyFinder ==> lastUse[key] <= lastUse[k]
    {
      BackIsOldest(lruQueue, lastUse);
      key := lruQueue[|lruQueue| - 1];
    }
  }

  /** Touching the back of a three-key queue rotates it to the front. */
  lemma TouchBackOfThree<K>(s: seq<K>)
    requires |s| == 3 && NoDup(s)
    ensures MoveToFront(s, s[2]) == [s[2], s[0], s[1]]
  {
    IndexOfUnique(s, 2);
  }

  /** Insert A, B, C: the list runs C, B, A from most to least recently used. */
  method DocExampleInserts<K(==)>(a: K, b: K, c: K) returns (policy: LRUCachePolicy<K>)
    requires a != b && a != c && b != c
    ensures fresh(policy) && policy.Valid()
    ensures policy.lruQueue == [c, b, a] && policy.keyFinder == {a, b, c}
  {
    policy := new LRUCachePolicy<K>();
    policy.Insert(a);
    policy.Insert(b);
    policy.Insert(c);
  }

  /** Then touch A, touch B: the list runs B, A, C from most to least recently used. */
  method DocExampleTouches<K(==)>(a: K, b: K, c: K) returns (policy: LRUCachePolicy<K>)
    requires a != b && a != c && b != c
    ensures fresh(policy) && policy.Valid()
    ensures policy.lruQueue == [b, a, c] && policy.keyFinder == {a, b, c}
  {
    policy := DocExampleInserts(a, b, c);
    TouchBackOfThree(policy.lruQueue);
    policy.Touch(a);
    TouchBackOfThree(policy.lruQueue);
    policy.Touch(b);
  }

  /**
   * The run of the class comment: after insert A, B, C, touch A, touch B, the candidate is C;
   * erasing it and inserting D leaves D, B, A from most to least recently used.
   */
  method DocExample<K(==)>(a: K, b: K, c: K, d: K) returns (candidate: K, order: seq<K>)
    requires a != b && a != c && a != d && b != c && b != d && c != d
    ensures candidate == c && order == [d, b, a]
  {
    var policy := DocExampleTouches(a, b, c);
    candidate := policy.ReplacementCandidate();
    policy.Erase(candidate);
    policy.Insert(d);
    order := policy.lruQueue;
  }

  /** Erasing a key that is not the back forgets the back instead and keeps the named key. */
  method EraseIgnoresKey<K(==)>(a: K, b: K) returns (order: seq<K>)
    requires a != b
    ensures order == [b]
  {
    var policy := new LRUCachePolicy<K>();
    policy.Insert(a);
    policy.Insert(b);
    policy.Erase(b);
    order := policy.lruQueue;
  }
}
