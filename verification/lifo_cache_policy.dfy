/**
 * `LIFOCachePolicy`: the key added last leaves first. New keys go to the front of
 * `lifoStack`, and the front is also the replacement candidate.
 */
module LifoCachePolicy {
  import opened ListOps

  class LIFOCachePolicy<K(==)> {
    /** `lifo_stack`, newest key at the front. */
    var lifoStack: seq<K>
    /**
     * The key set of `key_lookup`, the key -> list-iterator index; the iterator of a key is
     * its unique position in `lifoStack`.
     */
    var keyLookup: set<K>
    /** Logical insertion time of every tracked key (model only). */
    ghost var insertedAt: map<K, nat>
    /** The next insertion time (model only). */
    ghost var clock: nat

    ghost predicate Valid()
      reads this
    {
      NoDup(lifoStack) && keyLookup == Elems(lifoStack) &&
      NewestFirst(lifoStack, insertedAt) &&
      AllBefore(lifoStack, insertedAt, clock)
    }

    constructor ()
      ensures Valid() && lifoStack == [] && keyLookup == {}
    {
      lifoStack, keyLookup := [], {};
      insertedAt, clock := map[], 0;
    }

    /** `emplace_front` and record the new node in the index. */
    method Insert(key: K)
      requires Valid() && key !in keyLookup
      modifies this
      ensures Valid()
      ensures lifoStack == [key] + old(lifoStack) && keyLookup == old(keyLookup) + {key}
      ensures insertedAt == old(insertedAt)[key := old(clock)] && clock > old(clock)
    {
      PushFrontNewest(lifoStack, insertedAt, key, clock);
      lifoStack := [key] + lifoStack;
      keyLookup := keyLookup + {key};
      insertedAt := insertedAt[key := clock];
      clock := clock + 1;
    }

    /** Reads and updates do not change the eviction order. */
    method Touch(key: K)
      ensures unchanged(this)
    {
    }

    /**
     * Erases the node the index designates for `key`, wherever it sits, and the index entry.
     * An untracked key would make `key_lookup[key]` yield a default iterator, so it is excluded.
     */
    method Erase(key: K)
      requires Valid() && key in keyLookup
      modifies this
      ensures Valid()
      ensures lifoStack == EraseKey(old(lifoStack), key) && keyLookup == old(keyLookup) - {key}
      ensures insertedAt == old(insertedAt) - {key} && clock == old(clock)
    {
      EraseKeyFacts(lifoStack, key);
      EraseKeyNewest(lifoStack, insertedAt, key, clock);
      lifoStack := EraseKey(lifoStack, key);
      keyLookup := keyLookup - {key};
      insertedAt := insertedAt - {key};
    }

    /** The front of the stack: the tracked key that was inserted last. */
    method ReplacementCandidate() returns (key: K)
      requires Valid() && lifoStack != []
      ensures key == lifoStack[0]
      ensures key in keyLookup && forall k :: k in keyLookup ==> insertedAt[k] <= insertedAt[key]
    {
      FrontIsNewest(lifoStack, insertedAt);
      key := lifoStack[0];
    }
  }

  /** Keys added A, B, C are offered for replacement as C, then B, then A as each is erased. */
  method DocExample() returns (first: char, second: char, third: char)
    ensures first == 'C' && second == 'B' && third == 'A'
  {
    var policy := new LIFOCachePolicy<char>();
    policy.Insert('A');
    policy.Insert('B');
    policy.Insert('C');
    first := policy.ReplacementCandidate();
    policy.Erase(first);
    second := policy.ReplacementCandidate();
    policy.Erase(second);
    third := policy.ReplacementCandidate();
  }
}
