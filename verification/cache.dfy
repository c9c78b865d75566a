/**
 * `fixed_sized_cache`: a key/value map bounded by a maximum size, whose eviction order comes
 * from the policy object it owns. Every public operation runs atomically; the erase callback is
 * represented by the log of `(key, value)` pairs it would have been called with.
 */
module Cache {
  import opened ListOps
  import opened PolicyContract

  datatype Option<T> = None | Some(value: T)

  datatype Result<T, E> = Success(value: T) | Failure(error: E)

  /** `std::invalid_argument` from the constructor, `std::range_error` from Get. */
  datatype CacheError = InvalidArgument | NoSuchElement

  class FixedSizedCache<K(==), V> {
    /** `cache_items_map`. */
    var cacheItems: map<K, V>
    /** `cache_policy`, mutable even from the lookup operations. */
    const cachePolicy: Policy<K>
    /** `max_cache_size`. */
    const maxCacheSize: nat
    /** Every call of `on_erase_callback`, oldest first. */
    var onEraseLog: seq<(K, V)>

    /** The map never outgrows the positive maximum size; the policy object is its own. */
    ghost predicate WellFormed()
      reads this, cachePolicy.Obj()
    {
      cachePolicy.Obj() != this && cachePolicy.Valid() && 0 < maxCacheSize
      && |cacheItems| <= maxCacheSize
    }

    /**
     * What every public operation keeps. FIFO, LIFO and the set forget exactly the key they are
     * told to erase, so they stay synced. LRU may drift from the stored keys (its Erase pops the
     * back whatever the key), but every operation changes its list and the map by the same
     * number of entries, so their sizes stay equal.
     */
    ghost predicate Valid()
      reads this, cachePolicy.Obj()
    {
      WellFormed() &&
      if cachePolicy.State().LruState? then |cachePolicy.State().order| == |cacheItems| else Synced()
    }

    /** The policy tracks exactly the stored keys. */
    ghost predicate Synced()
      reads this, cachePolicy.Obj()
    {
      Tracked(cachePolicy.State()) == cacheItems.Keys
    }

    /** A synced cache is valid: LRU's duplicate-free list then has one node per stored key. */
    lemma SyncedIsValid()
      requires WellFormed() && Synced()
      ensures Valid()
    {
      if cachePolicy.State().LruState? {
        NoDupCard(cachePolicy.State().order);
      }
    }

    /** An empty cache over a default-constructed policy of the given kind. */
    constructor (maxSize: nat, kind: PolicyKind)
      requires maxSize > 0
      ensures Valid() && Synced() && fresh(cachePolicy.Obj())
      ensures cacheItems == map[] && onEraseLog == [] && maxCacheSize == maxSize
      ensures cachePolicy.Kind() == kind && cachePolicy.State() == EmptyState(kind)
    {
      var policy := NewPolicy<K>(kind);
      cacheItems := map[];
      cachePolicy := policy;
      maxCacheSize := maxSize;
      onEraseLog := [];
    }

    /** `find`: the stored value, if any. */
    function FindElem(key: K): (r: Option<V>)
      reads this
      ensures r.Some? <==> key in cacheItems
      ensures r.Some? ==> r.value == cacheItems[key]
    {
      if key in cacheItems then Some(cacheItems[key]) else None
    }

    /** Tells the policy about a new key, then stores the pair. */
    method Insert(key: K, value: V)
      requires WellFormed() && key !in cacheItems && |cacheItems| < maxCacheSize
      requires CanInsert(cachePolicy.State(), key)
      modifies this, cachePolicy.Obj()
      ensures WellFormed() && cacheItems == old(cacheItems)[key := value] && onEraseLog == old(onEraseLog)
      ensures cachePolicy.State() == Inserted(old(cachePolicy.State()), key)
    {
      cachePolicy.Insert(key);
      cacheItems := cacheItems[key := value];
    }

    /** Tells the policy, reports the pair to the erase callback, then drops it from the map. */
    method Erase(key: K)
      requires WellFormed() && key in cacheItems && CanErase(cachePolicy.State(), key)
      modifies this, cachePolicy.Obj()
      ensures WellFormed() && cacheItems == old(cacheItems) - {key}
      ensures onEraseLog == old(onEraseLog) + [(key, old(cacheItems)[key])]
      ensures cachePolicy.State() == Erased(old(cachePolicy.State()), key)
    {
      var element := FindElem(key);
      cachePolicy.Erase(key);
      onEraseLog := onEraseLog + [(key, element.value)];
      cacheItems := cacheItems - {key};
    }

    /** An update counts as an access: Touch, then overwrite the value. */
    method Update(key: K, value: V)
      requires WellFormed() && key in cacheItems && CanTouch(cachePolicy.State(), key)
      modifies this, cachePolicy.Obj()
      ensures WellFormed() && cacheItems == old(cacheItems)[key := value] && onEraseLog == old(onEraseLog)
      ensures cachePolicy.State() == Touched(old(cachePolicy.State()), key)
    {
      cachePolicy.Touch(key);
      cacheItems := cacheItems[key := value];
    }

    /**
     * Makes room for one more entry: asks the policy for its replacement candidate and erases
     * it, which reports it to the erase callback.
     */
    method EvictCandidate()
      requires Valid() && Synced() && cacheItems != map[]
      modifies this, cachePolicy.Obj()
      ensures Valid() && Synced()
      ensures |onEraseLog| == |old(onEraseLog)| + 1
      ensures var victim := onEraseLog[|onEraseLog| - 1].0;
              IsCandidate(old(cachePolicy.State()), victim) && victim in old(cacheItems)
              && onEraseLog == old(onEraseLog) + [(victim, old(cacheItems)[victim])]
              && cacheItems == old(cacheItems) - {victim}
              && cachePolicy.State() == Erased(old(cachePolicy.State()), victim)
    {
      ghost var st0 := cachePolicy.State();
      ghost var someKey :| someKey in cacheItems;
      CandidateTracked(st0, someKey);
      var candidate := cachePolicy.ReplacementCandidate();
      CandidateTracked(st0, candidate);
      EraseCandidateForgetsIt(st0, candidate);
      Erase(candidate);
      SyncedIsValid();
    }

    /**
     * Stores `value` under `key`. A present key is updated and touched; an absent key first
     * evicts the policy's replacement candidate when the cache is full, then is inserted.
     */
    method Put(key: K, value: V)
      requires Valid() && Synced()
      modifies this, cachePolicy.Obj()
      ensures Valid() && Synced()
      ensures key in old(cacheItems) ==>
                cacheItems == old(cacheItems)[key := value] && onEraseLog == old(onEraseLog)
                && cachePolicy.State() == Touched(old(cachePolicy.State()), key)
      ensures key !in old(cacheItems) && |old(cacheItems)| < maxCacheSize ==>
                cacheItems == old(cacheItems)[key := value] && onEraseLog == old(onEraseLog)
                && cachePolicy.State() == Inserted(old(cachePolicy.State()), key)
      ensures key !in old(cacheItems) && |old(cacheItems)| == maxCacheSize ==>
                |onEraseLog| == |old(onEraseLog)| + 1
                && var victim := onEraseLog[|onEraseLog| - 1].0;
                IsCandidate(old(cachePolicy.State()), victim) && victim in old(cacheItems)
                && onEraseLog == old(onEraseLog) + [(victim, old(cacheItems)[victim])]
                && cacheItems == (old(cacheItems) - {victim})[key := value]
                && cachePolicy.State() == Inserted(Erased(old(cachePolicy.State()), victim), key)
    {
      var element := FindElem(key);
      if element.None? {
        PutAbsent(key, value);
      } else {
        TouchKeepsKeys(cachePolicy.State(), key);
        Update(key, value);
      }
    }

    /** The branch of Put for a key not yet stored: evict first when full, then insert. */
    method PutAbsent(key: K, value: V)
      requires Valid() && Synced() && key !in cacheItems
      modifies this, cachePolicy.Obj()
      ensures Valid() && Synced()
      ensures |old(cacheItems)| < maxCacheSize ==>
                cacheItems == old(cacheItems)[key := value] && onEraseLog == old(onEraseLog)
                && cachePolicy.State() == Inserted(old(cachePolicy.State()), key)
      ensures |old(cacheItems)| == maxCacheSize ==>
                |onEraseLog| == |old(onEraseLog)| + 1
                && var victim := onEraseLog[|onEraseLog| - 1].0;
                IsCandidate(old(cachePolicy.State()), victim) && victim in old(cacheItems)
                && onEraseLog == old(onEraseLog) + [(victim, old(cacheItems)[victim])]
                && cacheItems == (old(cacheItems) - {victim})[key := value]
                && cachePolicy.State() == Inserted(Erased(old(cachePolicy.State()), victim), key)
    {
      if |cacheItems| + 1 > maxCacheSize {
        EvictCandidate();
      }
      InsertSynced(key, value);
    }

    /** Insert on a synced cache with room to spare keeps it synced and valid. */
    method InsertSynced(key: K, value: V)
      requires Valid() && Synced() && key !in cacheItems && |cacheItems| < maxCacheSize
      modifies this, cachePolicy.Obj()
      ensures Valid() && Synced()
      ensures cacheItems == old(cacheItems)[key := value] && onEraseLog == old(onEraseLog)
      ensures cachePolicy.State() == Inserted(old(cachePolicy.State()), key)
    {
      ghost var st1 := cachePolicy.State();
      InsertTracks(st1, key);
      Insert(key, value);
      assert cachePolicy.State() == Inserted(st1, key);
      SyncedIsValid();
    }

    /** Looks the key up and, on a hit, tells the policy about the access. */
    method GetInternal(key: K) returns (r: Option<V>)
      requires WellFormed() && (key in cacheItems ==> CanTouch(cachePolicy.State(), key))
      modifies cachePolicy.Obj()
      ensures WellFormed() && r == FindElem(key)
      ensures cachePolicy.State() == if r.Some? then Touched(old(cachePolicy.State()), key)
                                     else old(cachePolicy.State())
    {
      r := FindElem(key);
      if r.Some? {
        cachePolicy.Touch(key);
      }
    }

    /** The stored value if `key` is present; a hit touches the key and keeps the cache synced. */
    method TryGet(key: K) returns (r: Option<V>)
      requires Valid() && (key in cacheItems ==> CanTouch(cachePolicy.State(), key))
      modifies cachePolicy.Obj()
      ensures Valid()
      ensures r.Some? <==> key in cacheItems
      ensures r.Some? ==> r.value == cacheItems[key]
      ensures cachePolicy.State() == if r.Some? then Touched(old(cachePolicy.State()), key)
                                     else old(cachePolicy.State())
      ensures old(Synced()) ==> Synced()
    {
      if key in cacheItems {
        TouchKeepsKeys(cachePolicy.State(), key);
      }
      r := GetInternal(key);
    }

    /** Like TryGet, but a miss is the error `std::range_error` reports. */
    method Get(key: K) returns (r: Result<V, CacheError>)
      requires Valid() && (key in cacheItems ==> CanTouch(cachePolicy.State(), key))
      modifies cachePolicy.Obj()
      ensures Valid()
      ensures r.Success? <==> key in cacheItems
      ensures r.Success? ==> r.value == cacheItems[key]
      ensures r.Failure? ==> r.error == NoSuchElement
      ensures cachePolicy.State() == if r.Success? then Touched(old(cachePolicy.State()), key)
                                     else old(cachePolicy.State())
      ensures old(Synced()) ==> Synced()
    {
      if key in cacheItems {
        TouchKeepsKeys(cachePolicy.State(), key);
      }
      var element := GetInternal(key);
      if element.Some? {
        r := Success(element.value);
      } else {
        r := Failure(NoSuchElement);
      }
    }

    /** Membership, without telling the policy. */
    method Cached(key: K) returns (present: bool)
      ensures present <==> key in cacheItems
    {
      present := FindElem(key).Some?;
    }

    /** The number of stored entries, never above the maximum size. */
    method Size() returns (n: nat)
      requires Valid()
      ensures n == |cacheItems| && n <= maxCacheSize
    {
      n := |cacheItems|;
    }

    /**
     * Removes a present key through the policy and the erase callback. The cache stays synced
     * exactly when the key the policy forgets is the one removed, which LRU does only for its
     * least recently used key.
     */
    method Remove(key: K) returns (removed: bool)
      requires Valid()
      modifies this, cachePolicy.Obj()
      ensures Valid()
      ensures removed <==> key in old(cacheItems)
      ensures removed ==> cacheItems == old(cacheItems) - {key}
                          && onEraseLog == old(onEraseLog) + [(key, old(cacheItems)[key])]
                          && cachePolicy.State() == Erased(old(cachePolicy.State()), key)
      ensures !removed ==> cacheItems == old(cacheItems) && onEraseLog == old(onEraseLog)
                           && cachePolicy.State() == old(cachePolicy.State())
      ensures old(Synced()) && !removed ==> Synced()
      ensures old(Synced()) && removed ==>
                (Synced() <==> Victim(old(cachePolicy.State()), key) == key)
    {
      var element := FindElem(key);
      if element.None? {
        return false;
      }
      if Synced() {
        EraseKeepsSyncIff(cachePolicy.State(), key);
      } else {
        assert |cachePolicy.State().order| == |cacheItems| > 0;
      }
      Erase(key);
      removed := true;
    }

    /**
     * Erases every stored key from the policy, one call each in no particular order, then
     * empties the map. The erase callback is not called.
     */
    method Clear()
      requires Valid()
      modifies this, cachePolicy.Obj()
      ensures Valid() && cacheItems == map[] && onEraseLog == old(onEraseLog)
      ensures !old(cachePolicy.State()).LruState? ==>
                Tracked(cachePolicy.State()) == Tracked(old(cachePolicy.State())) - old(cacheItems).Keys
      ensures old(cachePolicy.State()).LruState? ==>
                var before := old(cachePolicy.State()).order;
                cachePolicy.State().order == before[..|before| - |old(cacheItems)|]
      ensures old(Synced()) ==> Synced()
    {
      ghost var st0 := cachePolicy.State();
      ghost var keys := cacheItems.Keys;
      var pending := cacheItems.Keys;
      ghost var erased: nat := 0;
      if Synced() {
        EraseAllTracked(st0, keys);
      } else {
        assert |keys| == |st0.order|;
      }
      PartlyErasedStart(st0, keys);
      while pending != {}
        invariant WellFormed() && cacheItems == old(cacheItems) && onEraseLog == old(onEraseLog)
        invariant PartlyErased(st0, cachePolicy.State(), keys, pending, erased)
        decreases |pending|
      {
        var key :| key in pending;
        PartlyErasedStep(st0, cachePolicy.State(), keys, pending, erased, key);
        cachePolicy.Erase(key);
        pending := pending - {key};
        erased := erased + 1;
      }
      PartlyErasedDone(st0, cachePolicy.State(), keys, erased);
      if st0.LruState? {
        assert |keys| == |st0.order|;
        assert cachePolicy.State().order == [];
      } else {
        assert Tracked(cachePolicy.State()) == {};
      }
      cacheItems := map[];
    }
  }

  /** Construction that reports a zero maximum size instead of throwing. */
  method NewCache<K(==), V>(maxSize: nat, kind: PolicyKind) returns (r: Result<FixedSizedCache<K, V>, CacheError>)
    ensures r.Failure? <==> maxSize == 0
    ensures r.Failure? ==> r.error == InvalidArgument
    ensures r.Success? ==> fresh(r.value) && r.value.Valid() && r.value.Synced()
                           && r.value.cacheItems == map[] && r.value.onEraseLog == []
                           && r.value.maxCacheSize == maxSize && r.value.cachePolicy.Kind() == kind
  {
    if maxSize == 0 {
      r := Failure(InvalidArgument);
    } else {
      var cache := new FixedSizedCache<K, V>(maxSize, kind);
      r := Success(cache);
    }
  }
}
