/**
 * `FIFOCachePolicy`: keys leave in the order they came in. New keys go to the front of
 * `fifoQueue`, so its back is the key that has been tracked longest.
 */
module FifoCachePolicy {
  import opened ListOps

  class FIFOCachePolicy<K(==)> {
    /** `fifo_queue`, newest key at the front. */
    var fifoQueue: seq<K>
    /**
     * The key set of `key_lookup`, the key -> list-iterator index; the iterator of a key is
     * its unique position in `fifoQueue`.
     */
    var keyLookup: set<K>
    /** Logical insertion time of every tracked key (model only). */
    ghost var insertedAt: map<K, nat>
    /** The next insertion time (model only). */
    ghost var clock: nat

    ghost predicate Valid()
      reads this
    {
      NoDup(fifoQueue) && keyLookup == Elems(fifoQueue) &&
      NewestFirst(fifoQueue, insertedAt) &&
      AllBefore(fifoQueue, insertedAt, clock)
    }

    constructor ()
      ensures Valid() && fifoQueue == [] && keyLookup == {}
    {
      fifoQueue, keyLookup := [], {};
      insertedAt, clock := map[], 0;
    }

    /** `emplace_front` and record the new node in the index. */
    method Insert(key: K)
      requires Valid() && key !in keyLookup
      modifies this
      ensures Valid()
      ensures fifoQueue == [key] + old(fifoQueue) && keyLookup == old(keyLookup) + {key}
      ensures insertedAt == old(insertedAt)[key := old(clock)] && clock > old(clock)
    {
      PushFrontNewest(fifoQueue, insertedAt, key, clock);
      fifoQueue := [key] + fifoQueue;
      keyLookup := keyLookup + {key};
      insertedAt := insertedAt[key := clock];
      clock := clock + 1;
    }

    /** Reads and updates do not change the eviction order. */
    method Touch(key: K)
      ensures unchanged(this)
    {
    }

    /**
     * Erases the node the index designates for `key`, wherever it sits, and the index entry.
     * An untracked key would make `key_lookup[key]` yield a default iterator, so it is excluded.
     */
    method Erase(key: K)
      requires Valid() && key in keyLookup
      modifies this
      ensures Valid()
      ensures fifoQueue == EraseKey(old(fifoQueue), key) && keyLookup == old(keyLookup) - {key}
      ensures insertedAt == old(insertedAt) - {key} && clock == old(clock)
    {
      EraseKeyFacts(fifoQueue, key);
      EraseKeyNewest(fifoQueue, insertedAt, key, clock);
      fifoQueue := EraseKey(fifoQueue, key);
      keyLookup := keyLookup - {key};
      insertedAt := insertedAt - {key};
    }

    /** The back of the queue: the tracked key that was inserted earliest. */
    method ReplacementCandidate() returns (key: K)
      requires Valid() && fifoQueue != []
      ensures key == fifoQueue[|fifoQueue| - 1]
      ensures key in keyLookup && forall k :: k in keyLookup ==> insertedAt[key] <= insertedAt[k]
    {
      BackIsOldest(fifoQueue, insertedAt);
      key := fifoQueue[|fifoQueue| - 1];
    }
  }

  /** Keys added A, B, C are offered for replacement as A, then B, then C as each is erased. */
  method DocExample() returns (first: char, second: char, third: char)
    ensures first == 'A' && second == 'B' && third == 'C'
  {
    var policy := new FIFOCachePolicy<char>();
    policy.Insert('A');
    policy.Insert('B');
    policy.Insert('C');
    first := policy.ReplacementCandidate();
    policy.Erase(first);
    second := policy.ReplacementCandidate();
    policy.Erase(second);
    third := policy.ReplacementCandidate();
  }
}
