# memecache core in Dafny

A model of the header-only C++ cache library *memecache*. Its core is `fixed_sized_cache`, a
key/value map with a positive maximum size. When a `Put` of a new key would overflow the map,
the cache asks the eviction policy it owns for a replacement candidate. It erases that entry,
reports it to an erase callback, and then stores the new pair. The policy implements the
four-operation interface `ICachePolicy`: `Insert`, `Touch`, `Erase` and `ReplacementCandidate`.
There are four implementations:

- `NoCachePolicy`: an unordered key set; any key may be the candidate.
- `FIFOCachePolicy`: a list with new keys at the front; the back, the oldest insertion, is the
  candidate.
- `LIFOCachePolicy`: the same list; the front, the newest insertion, is the candidate.
- `LRUCachePolicy`: a list with inserted and touched keys at the front; the back, the least
  recently used key, is the candidate.

Layout, one module per file:

- `list_ops.dfy` (`ListOps`): the `std::list` operations the list-based policies use, as
  functions on sequences. Front is index 0. An iterator is modelled by the position of the key
  it designates. The module also proves lemmas about these operations, and about *stamps*: a
  ghost logical time per key, which defines "oldest", "newest" and "least recently used"
  independently of list positions.
- `cache_policy.dfy`, `fifo_cache_policy.dfy`, `lifo_cache_policy.dfy`, `lru_cache_policy.dfy`:
  one class per policy. Each class has the C++ members as fields and updates them in place. The
  key -> iterator index is modelled by its key set, because a key's iterator is its unique
  place in the list. FIFO, LIFO and LRU also carry a ghost clock and ghost stamps.
- `policy_contract.dfy` (`PolicyContract`): the interface. `PolicyState` is the abstract value
  of any policy, with pure transition functions (`Inserted`, `Touched`, `Erased`) and the
  candidate relation `IsCandidate`. `Policy` is the closed family of the four classes. Each of
  its methods dispatches to the class and is proved to follow the transition function.
- `cache.dfy` (`Cache`): `FixedSizedCache`, the orchestrator. The erase callback is modelled as
  the field `onEraseLog`, the sequence of `(key, value)` pairs it would have received.
  `Synced()` says the policy tracks exactly the stored keys.
- `scenarios.dfy` (`Scenarios`): complete runs of the cache with each policy.

`LRUCachePolicy::Erase` ignores its argument and pops the back of the list. The model keeps
that behaviour. `EraseKeepsSyncIff` and `FixedSizedCache.Remove` prove exactly when it keeps
the cache synced: when the removed key is the least recently used one. `LruRemoveDesync` shows
the drift on a two-key cache.

`Clear` (`include/cache.hpp:164-171`), which the destructor (line 54) calls, erases each key
from the policy and empties the map. It never calls the erase callback, and the model follows it.

`FixedSizedCache.Valid()` is the invariant every public operation keeps. FIFO, LIFO and the set
stay synced. LRU may drift, but every operation changes its list and the map by the same number
of entries, so the list stays exactly as long as the map. That is why `Remove` and `Clear`
need nothing beyond `Valid()`, even on a drifted LRU cache.

## Model

| member | source | states |
|---|---|---|
| ListOps.IndexOf | include/fifo_cache_policy.hpp:44 | the iterator the index holds for a key designates the first (in a duplicate-free list, the only) node holding that key |
| ListOps.EraseKey | include/fifo_cache_policy.hpp:45 | `list.erase(it)` on a key's node removes exactly one node; a list without the key is left as it is |
| ListOps.MoveToFront | include/lru_cache_policy.hpp:47 | `splice` to the front puts the key first and, for a tracked key, keeps the length |
| ListOps.PopBack | include/lru_cache_policy.hpp:54 | `pop_back` removes one node from the back and leaves the rest as a prefix of the old list |
| ListOps.EraseKeyStamps | include/fifo_cache_policy.hpp:42-47 | unlinking a key keeps every other pair ordered by stamp, with the key's stamp forgotten |
| ListOps.EraseKeyBefore | include/fifo_cache_policy.hpp:42-47 | unlinking a key keeps every remaining stamp before the clock |
| ListOps.EraseKeyFacts | include/fifo_cache_policy.hpp:42-47 | unlinking a tracked key's node from a duplicate-free list leaves one node fewer, no duplicates, and exactly the other keys |
| ListOps.EraseKeyKeepsOrder | include/fifo_cache_policy.hpp:42-47 | unlinking a node keeps the relative order of every other pair of keys, in both directions |
| ListOps.MoveToFrontFacts | include/lru_cache_policy.hpp:44-48 | splicing a tracked key to the front keeps the length, the key set and uniqueness, and puts the key at the front |
| ListOps.MoveToFrontKeepsOrder | include/lru_cache_policy.hpp:44-48 | the splice keeps the relative order of every other pair of keys, in both directions |
| ListOps.PopBackFacts | include/lru_cache_policy.hpp:50-55 | `pop_back` on a duplicate-free list drops exactly the back key and keeps uniqueness |
| ListOps.EraseBackIsPopBack | include/lru_cache_policy.hpp:50-55 | for the back key, LRU's pop equals unlinking that key, and splicing it to the front equals moving the back node to the front |
| ListOps.NoDupCard | include/lru_cache_policy.hpp:61-62 | a list with one node per key has as many nodes as distinct keys |
| ListOps.NewestFirstPairwise | include/lru_cache_policy.hpp:11-15 | stamps decreasing between neighbours, front to back, is equivalent to every key being stamped later than every key behind it |
| ListOps.PushFrontNewest | include/fifo_cache_policy.hpp:28-32 | `emplace_front` of an untracked key stamped now keeps the list ordered newest first |
| ListOps.EraseKeyNewest | include/fifo_cache_policy.hpp:42-47 | unlinking any node keeps the rest ordered newest first, with every stamp still before the clock |
| ListOps.PopBackNewest | include/lru_cache_policy.hpp:50-55 | popping the back keeps the rest ordered newest first, with every stamp still before the clock |
| ListOps.BackIsOldest | include/fifo_cache_policy.hpp:50 | in a list ordered newest first, the back holds the earliest stamp of all its keys |
| ListOps.FrontIsNewest | include/lifo_cache_policy.hpp:50 | in a list ordered newest first, the front holds the latest stamp of all its keys |
| CachePolicy.NoCachePolicy.constructor | include/cache_policy.hpp:57 | a new policy tracks no key |
| CachePolicy.NoCachePolicy.Insert | include/cache_policy.hpp:60 | the key set gains the key, and a repeated key changes nothing |
| CachePolicy.NoCachePolicy.Touch | include/cache_policy.hpp:62-66 | an access changes nothing |
| CachePolicy.NoCachePolicy.Erase | include/cache_policy.hpp:68 | the key set loses exactly the key, and an untracked key is a no-op |
| CachePolicy.NoCachePolicy.ReplacementCandidate | include/cache_policy.hpp:71 | some tracked key is returned; the unordered set's iteration order is unspecified |
| FifoCachePolicy.FIFOCachePolicy.constructor | include/fifo_cache_policy.hpp:24 | the queue and the index start empty and the invariant holds |
| FifoCachePolicy.FIFOCachePolicy.Insert | include/fifo_cache_policy.hpp:28-32 | the key goes to the front, the index gains it, it gets the newest stamp, and the invariant (no duplicates, index = queue keys, newest first) is kept |
| FifoCachePolicy.FIFOCachePolicy.Touch | include/fifo_cache_policy.hpp:34-39 | an access changes nothing |
| FifoCachePolicy.FIFOCachePolicy.Erase | include/fifo_cache_policy.hpp:41-47 | the named key's node is unlinked wherever it sits, the index and the stamps lose exactly that key, and the invariant is kept |
| FifoCachePolicy.FIFOCachePolicy.ReplacementCandidate | include/fifo_cache_policy.hpp:49-50 | the back of the queue is returned; it is tracked and has the earliest insertion stamp of every tracked key |
| FifoCachePolicy.DocExample | include/fifo_cache_policy.hpp:11-16 | after inserting A, B, C, the candidates are A, then B, then C as each one is erased |
| LifoCachePolicy.LIFOCachePolicy.constructor | include/lifo_cache_policy.hpp:24 | the stack and the index start empty and the invariant holds |
| LifoCachePolicy.LIFOCachePolicy.Insert | include/lifo_cache_policy.hpp:28-32 | the key goes to the front, the index gains it, it gets the newest stamp, and the invariant is kept |
| LifoCachePolicy.LIFOCachePolicy.Touch | include/lifo_cache_policy.hpp:34-39 | an access changes nothing |
| LifoCachePolicy.LIFOCachePolicy.Erase | include/lifo_cache_policy.hpp:41-47 | the named key's node is unlinked wherever it sits, the index and the stamps lose exactly that key, and the invariant is kept |
| LifoCachePolicy.LIFOCachePolicy.ReplacementCandidate | include/lifo_cache_policy.hpp:49-50 | the front of the stack is returned; it is tracked and has the latest insertion stamp of every tracked key |
| LifoCachePolicy.DocExample | include/lifo_cache_policy.hpp:11-16 | after inserting A, B, C, the candidates are C, then B, then A as each one is erased |
| LruCachePolicy.LRUCachePolicy.constructor | include/lru_cache_policy.hpp:35 | the list and the index start empty and the invariant holds |
| LruCachePolicy.LRUCachePolicy.Insert | include/lru_cache_policy.hpp:38-42 | the key goes to the front, the index gains it, its last use is now, and the invariant is kept |
| LruCachePolicy.LRUCachePolicy.Touch | include/lru_cache_policy.hpp:44-48 | the key's node is spliced to the front, the index is unchanged, its last use becomes now, and the list stays ordered by last use |
| LruCachePolicy.LRUCachePolicy.Erase | include/lru_cache_policy.hpp:50-55 | whatever key is passed, the back is popped and the index and stamps lose the back's key, and the invariant is kept |
| LruCachePolicy.LRUCachePolicy.ReplacementCandidate | include/lru_cache_policy.hpp:57-58 | the back of the list is returned; it is tracked and its last use is the earliest of every tracked key |
| LruCachePolicy.TouchBackOfThree | include/lru_cache_policy.hpp:19-24 | touching the back of a three-key list rotates it to the front, as in the example orders C, B, A -> A, C, B -> B, A, C |
| LruCachePolicy.DocExampleInserts | include/lru_cache_policy.hpp:19-20 | insert A, B, C: the list runs C, B, A and the index holds exactly A, B, C |
| LruCachePolicy.DocExampleTouches | include/lru_cache_policy.hpp:19-24 | then touch A, touch B: the list runs B, A, C with the same index |
| LruCachePolicy.DocExample | include/lru_cache_policy.hpp:16-27 | the whole run of the class comment: after insert A, B, C, touch A, touch B, the candidate is C; erasing it and inserting D leaves D, B, A |
| LruCachePolicy.EraseIgnoresKey | include/lru_cache_policy.hpp:50-55 | Erase(B) on the list B, A forgets A and keeps B |
| PolicyContract.Inserted | include/cache_policy.hpp:20-24 | Insert keeps the kind of policy and tracks exactly one more key: the set gains it, every list gains it at the front |
| PolicyContract.Touched | include/cache_policy.hpp:26-30 | Touch keeps the kind; LRU puts the key at the front; the set, FIFO and LIFO ignore the access |
| PolicyContract.Erased | include/lru_cache_policy.hpp:50-55 | Erase keeps the kind; LRU's result is a prefix of its old list one node shorter, whatever key is named |
| PolicyContract.Victim | include/lru_cache_policy.hpp:50-55 | the key Erase forgets is the named key, except under LRU, where it is a key of the list (its back) |
| PolicyContract.InsertTracks | include/cache_policy.hpp:20-24 | on a well-formed state, inserting an untracked key (any key for the set) keeps the policy kind and uniqueness, and tracks exactly one more key |
| PolicyContract.TouchKeepsKeys | include/cache_policy.hpp:26-30 | Touch keeps the kind, uniqueness and the tracked keys; LRU puts the key at the front and keeps the length |
| PolicyContract.EraseForgetsVictim | include/cache_policy.hpp:32-37 | Erase forgets exactly its victim (the back for LRU, the named key otherwise); a list-based policy tracked that victim |
| PolicyContract.CandidateTracked | include/cache_policy.hpp:39-43 | a candidate exists if and only if some key is tracked, and every candidate is tracked |
| PolicyContract.EraseKeepsSyncIff | include/lru_cache_policy.hpp:50-55 | erasing a tracked key forgets exactly that key if and only if the policy is not LRU or the key is LRU's back |
| PolicyContract.EraseCandidateForgetsIt | include/cache.hpp:69-74 | erasing the replacement candidate forgets exactly that key, for every policy, including LRU |
| PolicyContract.EraseAllTracked | include/cache.hpp:164-171 | erasing each tracked key once is always meaningful, because LRU holds one node per tracked key |
| PolicyContract.PartlyErasedStep | include/cache.hpp:168-169 | one more policy Erase of a pending key during Clear is meaningful and keeps the running account of what has been forgotten |
| PolicyContract.PartlyErasedDone | include/cache.hpp:164-171 | after Clear's loop, the set, FIFO and LIFO have forgotten exactly the stored keys, LRU has lost its last entries (one per stored key), and a synced policy tracks nothing |
| PolicyContract.Policy.Insert | include/cache_policy.hpp:20-24 | dispatches to the held class; the new state is `Inserted` of the old one and the class invariant is kept |
| PolicyContract.Policy.Touch | include/cache_policy.hpp:26-30 | dispatches; the new state is `Touched` of the old one |
| PolicyContract.Policy.Erase | include/cache_policy.hpp:32-37 | dispatches; the new state is `Erased` of the old one |
| PolicyContract.Policy.ReplacementCandidate | include/cache_policy.hpp:39-43 | dispatches; the result satisfies `IsCandidate` on the current state |
| PolicyContract.NewPolicy | include/cache.hpp:44 | a default-constructed policy of the chosen kind: fresh, valid, empty |
| Cache.FixedSizedCache.constructor | include/cache.hpp:43-52 | a positive maximum size gives an empty, valid, synced cache over a fresh empty policy |
| Cache.NewCache | include/cache.hpp:43-52 | construction fails with the invalid-argument error if and only if the maximum size is 0; otherwise it gives a fresh, empty, synced cache |
| Cache.FixedSizedCache.FindElem | include/cache.hpp:204 | finds a value if and only if the key is stored, and the value found is the stored one |
| Cache.FixedSizedCache.Insert | include/cache.hpp:178-182 | the policy gets `Inserted` and the map gains the pair; the log is unchanged |
| Cache.FixedSizedCache.Erase | include/cache.hpp:184-196 | the policy gets `Erased`, the callback log gains the pair exactly once, and the map loses the key |
| Cache.FixedSizedCache.Update | include/cache.hpp:198-202 | the policy gets `Touched` and the value is overwritten; the log is unchanged |
| Cache.FixedSizedCache.SyncedIsValid | include/lru_cache_policy.hpp:61-62 | a synced cache is valid: LRU's list, one node per key, is then exactly as long as the map |
| Cache.FixedSizedCache.InsertSynced | include/cache.hpp:76 | inserting an absent key with room to spare keeps the cache valid and synced; the policy gets `Inserted` and the map gains the pair |
| Cache.FixedSizedCache.EvictCandidate | include/cache.hpp:69-74 | exactly one entry is evicted: the policy's candidate, which was stored; it is logged with its value and forgotten by both map and policy, so the cache stays synced |
| Cache.FixedSizedCache.Put | include/cache.hpp:61-83 | a present key is updated and touched; an absent key is inserted directly when there is room, and otherwise after evicting exactly one candidate; the map never exceeds the maximum size and the cache stays synced |
| Cache.FixedSizedCache.PutAbsent | include/cache.hpp:66-77 | the absent-key branch: evict first only when full, then insert; states the new map, log and policy state for both cases |
| Cache.FixedSizedCache.GetInternal | include/cache.hpp:206-217 | a hit returns the stored value and touches the key; a miss leaves the policy unchanged |
| Cache.FixedSizedCache.TryGet | include/cache.hpp:93-97 | the result is present if and only if the key is stored, with the stored value; a hit touches the key; a synced cache stays synced |
| Cache.FixedSizedCache.Get | include/cache.hpp:104-117 | success if and only if the key is stored, with the stored value; otherwise the no-such-element error; a synced cache stays synced |
| Cache.FixedSizedCache.Cached | include/cache.hpp:125-129 | true if and only if the key is stored; the policy is not told |
| Cache.FixedSizedCache.Size | include/cache.hpp:134-139 | the number of stored entries, never above the maximum size |
| Cache.FixedSizedCache.Remove | include/cache.hpp:147-161 | on any valid cache, a drifted LRU one included: true if and only if the key was stored; a removal logs the pair and erases it from map and policy, and keeps a synced cache synced if and only if the policy's victim is that key; a miss changes nothing |
| Cache.FixedSizedCache.Clear | include/cache.hpp:164-171 | on any valid cache, a drifted LRU one included: the map becomes empty without any callback, and the cache stays valid; the policy forgets the stored keys (LRU: its last entries); a synced cache stays synced |
| Scenarios.LruDocTouches | include/lru_cache_policy.hpp:16-24 | on the abstract state: insert A, B, C, touch A, touch B gives the LRU order B, A, C |
| Scenarios.LruDocEvict | include/lru_cache_policy.hpp:25-27 | from B, A, C the candidate is C; erasing it and inserting D gives D, B, A, and C is no longer tracked |
| Scenarios.FifoScenario | include/fifo_cache_policy.hpp:11-16 | maximum size 3, Put A, B, C, D: exactly A is evicted and logged with its value; B, C, D stay |
| Scenarios.LifoScenario | include/lifo_cache_policy.hpp:11-16 | maximum size 3, Put A, B, C, D: exactly C is evicted and logged; A, B, D stay |
| Scenarios.LruScenario | include/lru_cache_policy.hpp:11-18 | maximum size 3, Put A, B, C, Get A, Put D: Get returns A's value and exactly B, the least recently used key, is evicted |
| Scenarios.NoPolicyScenario | include/cache_policy.hpp:46-53 | maximum size 3, Put A, B, C, D: exactly one of A, B, C is evicted with its own value, and D is stored |
| Scenarios.LruRemoveDesync | include/lru_cache_policy.hpp:50-55 | maximum size 2, Put A, Put B, Remove(B): B leaves the map and is logged, but the policy tracks only B |
| Scenarios.DriftedLru | include/lru_cache_policy.hpp:50-55 | that drifted cache holds only A in its map, logged B, tracks only B, and still satisfies `Valid()` |
| Scenarios.LruRemoveAfterDrift | include/cache.hpp:147-161 | on the drifted cache, Remove(A) succeeds and logs A; map and policy list are then both empty |
| Scenarios.FifoRemoveStaysSynced | include/cache.hpp:147-161 | the same removal under FIFO keeps map and policy in step, so a later Put of C fits beside A with no eviction |

## Left out

- Locking: the `std::mutex` guard of every public operation is not modelled. Each method runs as one atomic step, and there is no concurrency.
- The erase callback is a `std::function` chosen by the caller. It is modelled by the list of pairs it would be called with (`onEraseLog`), so a callback's own effects are not modelled.
- `TryGet` returns an iterator/flag pair. The model returns an `Option` of the value, so iterator validity is not modelled.
- `Get` throws `std::range_error` and the constructor throws `std::invalid_argument`. These are modelled as `Result` failures (`NewCache` for construction); the class constructor itself requires a positive size.
- The `HashMap` template parameter is not modelled: the map is always a Dafny `map`. The key -> iterator index of each list-based policy is modelled by its key set.
- `NoCachePolicy::ReplacementCandidate` returns the first key in `std::unordered_set` iteration order. That order is not modelled; any tracked key may be returned.
- The destructor (`include/cache.hpp:54`) only calls `Clear`. It is not modelled separately.
- The constructor's `policy` argument may be an arbitrary pre-built policy object. Only the default-constructed policy of each kind is modelled.
- Memory allocation failure inside the `noexcept` `Put` is not modelled.
- `main.cpp` and `mainthread.cpp` (example programs and a thread demo) are not part of this model.
- Cache.FixedSizedCache.Put: requires `Synced()`, which the source does not check. An LRU `Remove` of a key other than the least recently used one leaves the policy out of step with the map (see `LruRemoveDesync`). Every `Put` path on such a cache can then go wrong in the source:
  - a `Put` of a new key into a full cache may get a candidate the map no longer holds, so `Erase(FindElem(candidate))` dereferences `cache_items_map.end()` (`include/cache.hpp:73`, `186-195`);
  - a `Put` of a stored key whose node was popped makes `key_finder[key]` yield a singular iterator for `splice` (`include/lru_cache_policy.hpp:47`);
  - a `Put` of a key the policy still tracks but the map lost pushes a second node for it.

  The model does not follow `Put` past that point. `Remove` and `Clear` stay defined there and are modelled on any valid cache.
- Cache.FixedSizedCache.TryGet and Get require, on an LRU cache, that a stored key still has its node in the list. After the drift, a hit on a key whose node was popped would splice a singular iterator (`include/lru_cache_policy.hpp:47`); that undefined behaviour is not modelled.
- `Policy` is a closed family of the four policy classes rather than an open interface, so user-defined policies are not modelled.
