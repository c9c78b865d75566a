/**
 * `NoCachePolicy`: the simplest implementation of the cache-policy interface. It only remembers
 * which keys the cache holds, in an unordered set, and offers any one of them for replacement.
 */
module CachePolicy {

  class NoCachePolicy<K(==)> {
    /** `key_storage`, the unordered set of tracked keys. */
    var keyStorage: set<K>

    constructor ()
      ensures keyStorage == {}
    {
      keyStorage := {};
    }

    /** `emplace`: tracks `key`; a key already tracked leaves the set as it is. */
    method Insert(key: K)
      modifies this
      ensures keyStorage == old(keyStorage) + {key}
    {
      keyStorage := keyStorage + {key};
    }

    /** An access changes nothing for this policy. */
    method Touch(key: K)
      ensures unchanged(this)
    {
    }

    /** `erase`: forgets exactly `key`; an untracked key is a no-op. */
    method Erase(key: K)
      modifies this
      ensures keyStorage == old(keyStorage) - {key}
    {
      keyStorage := keyStorage - {key};
    }

    /**
     * The first key in the set's iteration order. That order is unspecified, so the model
     * promises only that some tracked key comes back.
     */
    method ReplacementCandidate() returns (key: K)
      requires keyStorage != {}
      ensures key in keyStorage
    {
      key :| key in keyStorage;
    }
  }
}
