/**
 * `ICachePolicy`: the four operations every eviction policy offers the cache (Insert, Touch,
 * Erase, ReplacementCandidate), stated once over an abstract value of the policy's state and
 * then dispatched to the implementation classes.
 *
 * The implementations form a closed family here: `Policy` has one constructor per class, and
 * `State()` reads the class's fields back as a `PolicyState` value, so the cache can be specified
 * against the pure transition functions below without knowing which policy it holds.
 */
module PolicyContract {
  import opened ListOps
  import CachePolicy
  import FifoCachePolicy
  import LifoCachePolicy
  import LruCachePolicy

  /** Which implementation a cache is instantiated with. */
  datatype PolicyKind = NoPolicy | Fifo | Lifo | Lru

  /**
   * The observable state of a policy: the unordered key set of `NoCachePolicy`, or the
   * front-to-back key list of the three list-based policies.
   */
  datatype PolicyState<K> =
    | NoState(keys: set<K>)
    | FifoState(order: seq<K>)
    | LifoState(order: seq<K>)
    | LruState(order: seq<K>)

  function KindOf<K>(st: PolicyState<K>): PolicyKind
  {
    match st
    case NoState(_) => NoPolicy
    case FifoState(_) => Fifo
    case LifoState(_) => Lifo
    case LruState(_) => Lru
  }

  /** The state of a freshly constructed policy of the given kind. */
  function EmptyState<K>(kind: PolicyKind): (st: PolicyState<K>)
    ensures KindOf(st) == kind && Tracked(st) == {}
  {
    match kind
    case NoPolicy => NoState({})
    case Fifo => FifoState([])
    case Lifo => LifoState([])
    case Lru => LruState([])
  }

  /** The keys the policy currently tracks. */
  ghost function Tracked<K>(st: PolicyState<K>): set<K>
  {
    if st.NoState? then st.keys else Elems(st.order)
  }

  /** A list-based policy holds each key at most once (its index maps a key to one node). */
  ghost predicate Wf<K>(st: PolicyState<K>)
  {
    st.NoState? || NoDup(st.order)
  }

  /**
   * Insert is meaningful for a key the policy does not track yet: a list-based policy would
   * push a second node for a tracked key and repoint its index, leaving a stale node behind.
   * The unordered set of `NoCachePolicy` simply ignores a repeat.
   */
  ghost predicate CanInsert<K>(st: PolicyState<K>, k: K)
  {
    st.NoState? || k !in Tracked(st)
  }

  /** Only LRU's Touch dereferences its index; an untracked key would yield no node to splice. */
  ghost predicate CanTouch<K>(st: PolicyState<K>, k: K)
  {
    !st.LruState? || k in st.order
  }

  /**
   * FIFO and LIFO erase the node their index holds for `k`, so `k` must be tracked; LRU ignores
   * `k` and pops the back, so its list must not be empty; the set erases any key.
   */
  ghost predicate CanErase<K>(st: PolicyState<K>, k: K)
  {
    match st
    case NoState(_) => true
    case FifoState(order) => k in order
    case LifoState(order) => k in order
    case LruState(order) => order != []
  }

  /** ReplacementCandidate dereferences the set's first element or the list's back/front. */
  ghost predicate HasCandidate<K>(st: PolicyState<K>)
  {
    if st.NoState? then st.keys != {} else st.order != []
  }

  /**
   * The keys ReplacementCandidate may return: any key of the unordered set, the back of the
   * FIFO and LRU lists, the front of the LIFO list.
   */
  ghost predicate IsCandidate<K>(st: PolicyState<K>, c: K)
  {
    match st
    case NoState(keys) => c in keys
    case FifoState(order) => order != [] && c == order[|order| - 1]
    case LifoState(order) => order != [] && c == order[0]
    case LruState(order) => order != [] && c == order[|order| - 1]
  }

  /** The state after Insert(k): the set gains `k`; every list gains `k` at its front. */
  function Inserted<K>(st: PolicyState<K>, k: K): (r: PolicyState<K>)
    ensures KindOf(r) == KindOf(st) && Tracked(r) == Tracked(st) + {k}
  {
    match st
    case NoState(keys) => NoState(keys + {k})
    case FifoState(order) => FifoState([k] + order)
    case LifoState(order) => LifoState([k] + order)
    case LruState(order) => LruState([k] + order)
  }

  /** The state after Touch(k): LRU moves `k` to the front, the others ignore the access. */
  function Touched<K(==)>(st: PolicyState<K>, k: K): (r: PolicyState<K>)
    ensures KindOf(r) == KindOf(st)
    ensures st.LruState? ==> r.LruState? && r.order != [] && r.order[0] == k
    ensures !st.LruState? ==> r == st
  {
    if st.LruState? then LruState(MoveToFront(st.order, k)) else st
  }

  /**
   * The state after Erase(k). FIFO and LIFO unlink `k`'s node and the set drops `k`; LRU drops
   * its back element whatever `k` is.
   */
  function Erased<K(==)>(st: PolicyState<K>, k: K): (r: PolicyState<K>)
    ensures KindOf(r) == KindOf(st)
    ensures st.LruState? ==> r.order <= st.order && |r.order| == if st.order == [] then 0 else |st.order| - 1
  {
    match st
    case NoState(keys) => NoState(keys - {k})
    case FifoState(order) => FifoState(EraseKey(order, k))
    case LifoState(order) => LifoState(EraseKey(order, k))
    case LruState(order) => LruState(PopBack(order))
  }

  /** The key Erase(k) actually forgets: the back of the list for LRU, `k` for the others. */
  function Victim<K>(st: PolicyState<K>, k: K): (v: K)
    ensures !st.LruState? ==> v == k
    ensures st.LruState? && st.order != [] ==> v in st.order
  {
    if st.LruState? && st.order != [] then st.order[|st.order| - 1] else k
  }

  /**
   * Whether erasing each of `keys` once, in any order, is meaningful: FIFO and LIFO must track
   * every one of them, LRU must hold at least as many nodes as there are pops.
   */
  ghost predicate CanEraseAll<K>(st: PolicyState<K>, keys: set<K>)
  {
    match st
    case NoState(_) => true
    case FifoState(order) => keys <= Elems(order)
    case LifoState(order) => keys <= Elems(order)
    case LruState(order) => |keys| <= |order|
  }

  /** Insert never changes the kind of policy, keeps keys unique and tracks exactly one more key. */
  lemma InsertTracks<K>(st: PolicyState<K>, k: K)
    requires Wf(st) && CanInsert(st, k)
    ensures KindOf(Inserted(st, k)) == KindOf(st) && Wf(Inserted(st, k))
    ensures Tracked(Inserted(st, k)) == Tracked(st) + {k}
  {
    if !st.NoState? {
      assert Elems([k] + st.order) == Elems(st.order) + {k};
    }
  }

  /** Touch keeps the tracked keys and their uniqueness; it only reorders LRU's list. */
  lemma TouchKeepsKeys<K>(st: PolicyState<K>, k: K)
    requires Wf(st) && CanTouch(st, k)
    ensures KindOf(Touched(st, k)) == KindOf(st) && Wf(Touched(st, k))
    ensures Tracked(Touched(st, k)) == Tracked(st)
    ensures st.LruState? ==> Touched(st, k).order[0] == k && |Touched(st, k).order| == |st.order|
  {
    if st.LruState? {
      MoveToFrontFacts(st.order, k);
    }
  }

  /** Erase forgets exactly its victim, which a list-based policy tracked before the call. */
  lemma EraseForgetsVictim<K>(st: PolicyState<K>, k: K)
    requires Wf(st) && CanErase(st, k)
    ensures KindOf(Erased(st, k)) == KindOf(st) && Wf(Erased(st, k))
    ensures Tracked(Erased(st, k)) == Tracked(st) - {Victim(st, k)}
    ensures !st.NoState? ==> Victim(st, k) in Tracked(st)
  {
    match st
    case NoState(_) =>
    case FifoState(order) => EraseKeyFacts(order, k);
    case LifoState(order) => EraseKeyFacts(order, k);
    case LruState(order) => PopBackFacts(order);
  }

  /** A replacement candidate exists exactly when some key is tracked, and it is a tracked key. */
  lemma CandidateTracked<K>(st: PolicyState<K>, c: K)
    ensures HasCandidate(st) <==> Tracked(st) != {}
    ensures IsCandidate(st, c) ==> c in Tracked(st)
  {
    if !st.NoState? && st.order != [] {
      assert st.order[0] in Tracked(st);
    }
  }

  /**
   * Erasing a tracked key forgets that very key exactly when the policy is not LRU, or the
   * key is LRU's back element; otherwise LRU forgets a different key and keeps `k`.
   */
  lemma EraseKeepsSyncIff<K>(st: PolicyState<K>, k: K)
    requires Wf(st) && k in Tracked(st)
    ensures CanErase(st, k)
    ensures Tracked(Erased(st, k)) == Tracked(st) - {k} <==>
              (st.LruState? ==> k == st.order[|st.order| - 1])
  {
    EraseForgetsVictim(st, k);
    if st.LruState? && k != st.order[|st.order| - 1] {
      assert k in Tracked(Erased(st, k));
    }
  }

  /** Erasing the replacement candidate always forgets exactly that key, for every policy. */
  lemma EraseCandidateForgetsIt<K>(st: PolicyState<K>, c: K)
    requires Wf(st) && IsCandidate(st, c)
    ensures CanErase(st, c) && Victim(st, c) == c
    ensures Wf(Erased(st, c)) && Tracked(Erased(st, c)) == Tracked(st) - {c}
  {
    CandidateTracked(st, c);
    EraseKeepsSyncIff(st, c);
    EraseForgetsVictim(st, c);
  }

  /**
   * The list-based policies hold one node per tracked key, so erasing every tracked key once is
   * always meaningful.
   */
  lemma EraseAllTracked<K>(st: PolicyState<K>, keys: set<K>)
    requires Wf(st) && keys <= Tracked(st)
    ensures CanEraseAll(st, keys)
  {
    if st.LruState? {
      NoDupCard(st.order);
      assert |keys| <= |Elems(st.order)| by {
        SubsetCard(keys, Elems(st.order));
      }
    }
  }

  /**
   * What erasing the keys of `keys - pending` once each, `erased` calls in all, leaves of `st0`
   * when `st0` could erase all of `keys`: the set, FIFO and LIFO have forgotten exactly those
   * keys and still track the pending ones, LRU has popped `erased` keys off its back.
   */
  ghost predicate PartlyErased<K>(st0: PolicyState<K>, st: PolicyState<K>, keys: set<K>,
                                  pending: set<K>, erased: nat)
  {
    Wf(st) && KindOf(st) == KindOf(st0) && CanEraseAll(st0, keys)
    && pending <= keys && |pending| + erased == |keys|
    && if st0.LruState? then st.order == st0.order[..|st0.order| - erased]
       else Tracked(st) == Tracked(st0) - (keys - pending)
            && (!st0.NoState? ==> pending <= Tracked(st))
  }

  lemma PartlyErasedStart<K>(st0: PolicyState<K>, keys: set<K>)
    requires Wf(st0) && CanEraseAll(st0, keys)
    ensures PartlyErased(st0, st0, keys, keys, 0)
  {
  }

  /** One more Erase of a pending key is meaningful and keeps the account. */
  lemma PartlyErasedStep<K>(st0: PolicyState<K>, st: PolicyState<K>, keys: set<K>,
                            pending: set<K>, erased: nat, k: K)
    requires PartlyErased(st0, st, keys, pending, erased) && k in pending
    ensures CanErase(st, k)
    ensures PartlyErased(st0, Erased(st, k), keys, pending - {k}, erased + 1)
  {
    if st0.LruState? {
      assert |pending| >= 1;
    }
    EraseForgetsVictim(st, k);
  }

  /**
   * Once every key has been erased: the set, FIFO and LIFO track none of `keys`, LRU has lost its
   * last `|keys|` entries, and a policy that tracked exactly `keys` tracks nothing.
   */
  lemma PartlyErasedDone<K>(st0: PolicyState<K>, st: PolicyState<K>, keys: set<K>, erased: nat)
    requires Wf(st0) && PartlyErased(st0, st, keys, {}, erased)
    ensures !st0.LruState? ==> Tracked(st) == Tracked(st0) - keys
    ensures st0.LruState? ==> st.order == st0.order[..|st0.order| - |keys|]
    ensures Tracked(st0) == keys ==> Tracked(st) == {}
  {
    if st0.LruState? && Tracked(st0) == keys {
      NoDupCard(st0.order);
      assert st.order == [];
    }
  }

  lemma {:induction false} SubsetCard<K>(a: set<K>, b: set<K>)
    requires a <= b
    ensures |a| <= |b|
    decreases |a|
  {
    if a != {} {
      var x :| x in a;
      SubsetCard(a - {x}, b - {x});
    }
  }

  /**
   * The implementation a cache holds. Each constructor wraps one policy object, whose fields the
   * dispatching methods update in place.
   */
  datatype Policy<K(==)> =
    | NoPolicyImpl(none: CachePolicy.NoCachePolicy<K>)
    | FifoImpl(fifo: FifoCachePolicy.FIFOCachePolicy<K>)
    | LifoImpl(lifo: LifoCachePolicy.LIFOCachePolicy<K>)
    | LruImpl(lru: LruCachePolicy.LRUCachePolicy<K>)
  {
    /** The object holding this policy's state. */
    function Obj(): object
    {
      match this
      case NoPolicyImpl(p) => p
      case FifoImpl(p) => p
      case LifoImpl(p) => p
      case LruImpl(p) => p
    }

    function Kind(): PolicyKind
    {
      match this
      case NoPolicyImpl(_) => NoPolicy
      case FifoImpl(_) => Fifo
      case LifoImpl(_) => Lifo
      case LruImpl(_) => Lru
    }

    /** The implementation's own invariant holds, so its abstract state is well formed. */
    ghost predicate Valid()
      reads Obj()
    {
      (match this
       case NoPolicyImpl(_) => true
       case FifoImpl(p) => p.Valid()
       case LifoImpl(p) => p.Valid()
       case LruImpl(p) => p.Valid())
      && Wf(State())
    }

    /** The object's fields read back as an abstract state. */
    ghost function State(): (st: PolicyState<K>)
      reads Obj()
      ensures KindOf(st) == Kind()
    {
      match this
      case NoPolicyImpl(p) => NoState(p.keyStorage)
      case FifoImpl(p) => FifoState(p.fifoQueue)
      case LifoImpl(p) => LifoState(p.lifoStack)
      case LruImpl(p) => LruState(p.lruQueue)
    }

    method Insert(key: K)
      requires Valid() && CanInsert(State(), key)
      modifies Obj()
      ensures Valid() && State() == Inserted(old(State()), key)
    {
      match this
      case NoPolicyImpl(p) => p.Insert(key);
      case FifoImpl(p) => p.Insert(key);
      case LifoImpl(p) => p.Insert(key);
      case LruImpl(p) => p.Insert(key);
    }

    method Touch(key: K)
      requires Valid() && CanTouch(State(), key)
      modifies Obj()
      ensures Valid() && State() == Touched(old(State()), key)
    {
      match this
      case NoPolicyImpl(p) => p.Touch(key);
      case FifoImpl(p) => p.Touch(key);
      case LifoImpl(p) => p.Touch(key);
      case LruImpl(p) => p.Touch(key);
    }

    method Erase(key: K)
      requires Valid() && CanErase(State(), key)
      modifies Obj()
      ensures Valid() && State() == Erased(old(State()), key)
    {
      match this
      case NoPolicyImpl(p) => p.Erase(key);
      case FifoImpl(p) => p.Erase(key);
      case LifoImpl(p) => p.Erase(key);
      case LruImpl(p) => p.Erase(key);
    }

    method ReplacementCandidate() returns (key: K)
      requires Valid() && HasCandidate(State())
      ensures IsCandidate(State(), key)
    {
      match this
      case NoPolicyImpl(p) => key := p.ReplacementCandidate();
      case FifoImpl(p) => key := p.ReplacementCandidate();
      case LifoImpl(p) => key := p.ReplacementCandidate();
      case LruImpl(p) => key := p.ReplacementCandidate();
    }
  }

  /** The default-constructed policy of the given kind (`Policy<Key>{}`). */
  method NewPolicy<K(==)>(kind: PolicyKind) returns (p: Policy<K>)
    ensures fresh(p.Obj()) && p.Valid() && p.Kind() == kind && p.State() == EmptyState(kind)
  {
    match kind
    case NoPolicy =>
      var impl := new CachePolicy.NoCachePolicy<K>();
      p := NoPolicyImpl(impl);
    case Fifo =>
      var impl := new FifoCachePolicy.FIFOCachePolicy<K>();
      p := FifoImpl(impl);
    case Lifo =>
      var impl := new LifoCachePolicy.LIFOCachePolicy<K>();
      p := LifoImpl(impl);
    case Lru =>
      var impl := new LruCachePolicy.LRUCachePolicy<K>();
      p := LruImpl(impl);
  }
}
