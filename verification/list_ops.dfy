/**
 * The `std::list<Key>` operations the ordered policies rely on, as functions on sequences.
 * Index 0 is the list's front (where `emplace_front` puts a key) and the last index is its back.
 * A list iterator is modelled by the position of the key it designates; the policies keep
 * their lists free of duplicates, so that position is `IndexOf(s, k)`.
 */
module ListOps {

  /** No key occurs twice. */
  ghost predicate NoDup<K>(s: seq<K>)
  {
    forall i, j :: 0 <= i < j < |s| ==> s[i] != s[j]
  }

  /** The set of keys held by the list. */
  ghost function Elems<K>(s: seq<K>): set<K>
  {
    set x | x in s
  }

  /** Position of the first node holding `k`. */
  function IndexOf<K(==)>(s: seq<K>, k: K): (i: nat)
    requires k in s
    ensures i < |s| && s[i] == k
    ensures forall j :: 0 <= j < i ==> s[j] != k
  {
    if s[0] == k then 0 else 1 + IndexOf(s[1..], k)
  }

  /** `list.erase(it)` with `it` designating `k`'s node; a list without `k` is left as it is. */
  function EraseKey<K(==)>(s: seq<K>, k: K): (r: seq<K>)
    ensures k in s ==> |r| == |s| - 1
    ensures k !in s ==> r == s
  {
    if k in s then s[..IndexOf(s, k)] + s[IndexOf(s, k) + 1..] else s
  }

  /** `list.splice(list.begin(), list, it)` with `it` designating `k`'s node. */
  function MoveToFront<K(==)>(s: seq<K>, k: K): (r: seq<K>)
    ensures |r| > 0 && r[0] == k
    ensures k in s ==> |r| == |s|
  {
    [k] + EraseKey(s, k)
  }

  /** `list.pop_back()`. */
  function PopBack<K>(s: seq<K>): (r: seq<K>)
    ensures |r| == if s == [] then 0 else |s| - 1
    ensures r <= s
  {
    if s == [] then [] else s[..|s| - 1]
  }

  /** In a duplicate-free list the node holding a key is the only one. */
  lemma IndexOfUnique<K>(s: seq<K>, j: nat)
    requires NoDup(s) && j < |s|
    ensures IndexOf(s, s[j]) == j
  {
  }

  /** A duplicate-free list has as many nodes as keys. */
  lemma {:induction false} NoDupCard<K>(s: seq<K>)
    requires NoDup(s)
    ensures |Elems(s)| == |s|
  {
    if s != [] {
      assert NoDup(s[1..]);
      NoDupCard(s[1..]);
      assert Elems(s) == Elems(s[1..]) + {s[0]};
      assert s[0] !in Elems(s[1..]);
    }
  }

  /** Dropping the node at position `i` shifts every later node one place towards the front. */
  lemma RemoveAtShift<K>(s: seq<K>, i: nat)
    requires i < |s|
    ensures |s[..i] + s[i + 1..]| == |s| - 1
    ensures forall m :: 0 <= m < |s| - 1 ==> (s[..i] + s[i + 1..])[m] == if m < i then s[m] else s[m + 1]
  {
  }

  /** Dropping the node at position `i` of a duplicate-free list drops exactly its key. */
  lemma RemoveAtElems<K>(s: seq<K>, i: nat)
    requires NoDup(s) && i < |s|
    ensures NoDup(s[..i] + s[i + 1..])
    ensures Elems(s[..i] + s[i + 1..]) == Elems(s) - {s[i]}
  {
    var r := s[..i] + s[i + 1..];
    RemoveAtShift(s, i);
    forall x | x in Elems(s) - {s[i]}
      ensures x in Elems(r)
    {
      var j :| 0 <= j < |s| && s[j] == x;
      if j < i {
        assert r[j] == x;
      } else {
        assert r[j - 1] == x;
      }
    }
  }

  /** Erasing a tracked key drops exactly that key: one node fewer, still no duplicates. */
  lemma EraseKeyFacts<K>(s: seq<K>, k: K)
    requires NoDup(s) && k in s
    ensures |EraseKey(s, k)| == |s| - 1
    ensures NoDup(EraseKey(s, k))
    ensures Elems(EraseKey(s, k)) == Elems(s) - {k}
  {
    var i := IndexOf(s, k);
    assert EraseKey(s, k) == s[..i] + s[i + 1..];
    RemoveAtShift(s, i);
    RemoveAtElems(s, i);
  }

  /**
   * Erasing `k` leaves the keys in front of it where they were and moves every key behind it
   * one place towards the front.
   */
  lemma EraseKeyShift<K>(s: seq<K>, k: K, a: K)
    requires NoDup(s) && k in s && a in s && a != k
    ensures a in EraseKey(s, k)
    ensures IndexOf(EraseKey(s, k), a) ==
      if IndexOf(s, a) < IndexOf(s, k) then IndexOf(s, a) else IndexOf(s, a) - 1
  {
    var i, j := IndexOf(s, k), IndexOf(s, a);
    var r := EraseKey(s, k);
    EraseKeyFacts(s, k);
    assert r == s[..i] + s[i + 1..];
    var m := if j < i then j else j - 1;
    assert r[m] == a;
    IndexOfUnique(r, m);
  }

  /** Erasing a key keeps the relative order of every other key. */
  lemma EraseKeyKeepsOrder<K>(s: seq<K>, k: K, a: K, b: K)
    requires NoDup(s) && k in s && a in s && b in s && a != k && b != k
    ensures a in EraseKey(s, k) && b in EraseKey(s, k)
    ensures IndexOf(EraseKey(s, k), a) < IndexOf(EraseKey(s, k), b) <==> IndexOf(s, a) < IndexOf(s, b)
  {
    EraseKeyShift(s, k, a);
    EraseKeyShift(s, k, b);
    if a != b {
      IndexOfUnique(s, IndexOf(s, a));
      assert IndexOf(s, a) != IndexOf(s, b);
    }
  }

  /** Moving a tracked key to the front keeps the key set, the length and the absence of duplicates. */
  lemma MoveToFrontFacts<K>(s: seq<K>, k: K)
    requires NoDup(s) && k in s
    ensures |MoveToFront(s, k)| == |s| && MoveToFront(s, k)[0] == k
    ensures NoDup(MoveToFront(s, k)) && Elems(MoveToFront(s, k)) == Elems(s)
  {
    EraseKeyFacts(s, k);
    var e := EraseKey(s, k);
    var r := MoveToFront(s, k);
    assert r == [k] + e;
    assert Elems(r) == Elems(e) + {k};
    forall i, j | 0 <= i < j < |r|
      ensures r[i] != r[j]
    {
      assert r[j] == e[j - 1] && r[j] in Elems(e);
      if i > 0 {
        assert r[i] == e[i - 1];
      }
    }
  }

  /** Moving a key to the front keeps the relative order of every other key. */
  lemma MoveToFrontKeepsOrder<K>(s: seq<K>, k: K, a: K, b: K)
    requires NoDup(s) && k in s && a in s && b in s && a != k && b != k
    ensures a in MoveToFront(s, k) && b in MoveToFront(s, k)
    ensures IndexOf(MoveToFront(s, k), a) < IndexOf(MoveToFront(s, k), b) <==> IndexOf(s, a) < IndexOf(s, b)
  {
    MoveToFrontFacts(s, k);
    EraseKeyKeepsOrder(s, k, a, b);
    var e := EraseKey(s, k);
    var r := MoveToFront(s, k);
    var ia, ib := IndexOf(e, a), IndexOf(e, b);
    assert r[1 + ia] == a && r[1 + ib] == b;
    IndexOfUnique(r, 1 + ia);
    IndexOfUnique(r, 1 + ib);
  }

  /** Popping the back of a duplicate-free list drops exactly the back key. */
  lemma PopBackFacts<K>(s: seq<K>)
    requires NoDup(s) && s != []
    ensures NoDup(PopBack(s)) && Elems(PopBack(s)) == Elems(s) - {s[|s| - 1]}
  {
    var r := PopBack(s);
    assert s == r + [s[|s| - 1]];
    assert Elems(s) == Elems(r) + {s[|s| - 1]};
  }

  /** Erasing the back key of a duplicate-free list is popping the back. */
  lemma EraseBackIsPopBack<K>(s: seq<K>)
    requires NoDup(s) && s != []
    ensures EraseKey(s, s[|s| - 1]) == PopBack(s)
    ensures MoveToFront(s, s[|s| - 1]) == [s[|s| - 1]] + PopBack(s)
  {
    IndexOfUnique(s, |s| - 1);
  }

  /**
   * `stamp` (a logical time per key) strictly decreases from the front of `s` to its back:
   * the front holds the key with the latest time, the back the one with the earliest.
   * Stated between neighbours; `NewestFirstPairwise` gives the all-pairs form.
   */
  ghost predicate NewestFirst<K>(s: seq<K>, stamp: map<K, nat>)
    decreases |s|
  {
    s == [] ||
    (s[0] in stamp && (|s| > 1 ==> s[1] in stamp && stamp[s[0]] > stamp[s[1]]) &&
     NewestFirst(s[1..], stamp))
  }

  /** Every key holds a stamp, and every key is stamped later than every key behind it. */
  ghost predicate StampsDecrease<K>(s: seq<K>, stamp: map<K, nat>)
  {
    (forall i :: 0 <= i < |s| ==> s[i] in stamp) &&
    forall i, j :: 0 <= i < j < |s| ==> stamp[s[i]] > stamp[s[j]]
  }

  lemma {:induction false} NewestFirstPairwise<K>(s: seq<K>, stamp: map<K, nat>)
    ensures NewestFirst(s, stamp) <==> StampsDecrease(s, stamp)
    decreases |s|
  {
    if s != [] {
      NewestFirstPairwise(s[1..], stamp);
      if StampsDecrease(s, stamp) {
        assert StampsDecrease(s[1..], stamp) by {
          forall i, j | 0 <= i < j < |s[1..]|
            ensures stamp[s[1..][i]] > stamp[s[1..][j]]
          {
            assert s[1..][i] == s[i + 1] && s[1..][j] == s[j + 1];
          }
        }
      }
      if NewestFirst(s, stamp) {
        forall i, j | 0 <= i < j < |s|
          ensures s[i] in stamp && s[j] in stamp && stamp[s[i]] > stamp[s[j]]
        {
          assert s[j] == s[1..][j - 1];
          if i > 0 {
            assert s[i] == s[1..][i - 1];
          } else if j > 1 {
            assert s[1] == s[1..][0];
          }
        }
      }
    }
  }

  /** Every stamp of a key in `s` is before `now`. */
  ghost predicate AllBefore<K>(s: seq<K>, stamp: map<K, nat>, now: nat)
  {
    forall x :: x in s ==> x in stamp && stamp[x] < now
  }

  /** `emplace_front` of an untracked key stamped later than every tracked key keeps the order. */
  lemma PushFrontNewest<K>(s: seq<K>, stamp: map<K, nat>, k: K, now: nat)
    requires NewestFirst(s, stamp) && AllBefore(s, stamp, now) && k !in s
    ensures NewestFirst([k] + s, stamp[k := now])
  {
    NewestFirstPairwise(s, stamp);
    var r, st := [k] + s, stamp[k := now];
    forall i, j | 0 <= i < j < |r|
      ensures r[i] in st && r[j] in st && st[r[i]] > st[r[j]]
    {
      assert r[j] == s[j - 1] && r[j] in s;
      if i > 0 {
        assert r[i] == s[i - 1] && r[i] in s;
      }
    }
    NewestFirstPairwise(r, st);
  }

  /** Dropping the node at position `i` keeps the remaining keys ordered by their stamps. */
  lemma StampsDecreaseRemoveAt<K>(s: seq<K>, stamp: map<K, nat>, i: nat)
    requires StampsDecrease(s, stamp) && i < |s|
    ensures StampsDecrease(s[..i] + s[i + 1..], stamp)
  {
    var r := s[..i] + s[i + 1..];
    forall m | 0 <= m < |r|
      ensures r[m] == s[if m < i then m else m + 1]
    {
    }
  }

  /** Forgetting the stamp of a key that is not in the list changes nothing for the list. */
  lemma StampsDecreaseForget<K>(s: seq<K>, stamp: map<K, nat>, k: K)
    requires StampsDecrease(s, stamp) && k !in s
    ensures StampsDecrease(s, stamp - {k})
  {
    assert forall i :: 0 <= i < |s| ==> s[i] != k;
  }

  /** Erasing a key keeps the other keys ordered by their stamps, with the key's stamp forgotten. */
  lemma EraseKeyStamps<K>(s: seq<K>, stamp: map<K, nat>, k: K)
    requires StampsDecrease(s, stamp) && NoDup(s) && k in s
    ensures StampsDecrease(EraseKey(s, k), stamp - {k})
  {
    EraseKeyFacts(s, k);
    var i := IndexOf(s, k);
    var r := EraseKey(s, k);
    assert r == s[..i] + s[i + 1..];
    StampsDecreaseRemoveAt(s, stamp, i);
    assert k !in r by {
      assert k !in Elems(r);
    }
    StampsDecreaseForget(r, stamp, k);
  }

  /** Erasing a key keeps every remaining stamp before `now`. */
  lemma EraseKeyBefore<K>(s: seq<K>, stamp: map<K, nat>, k: K, now: nat)
    requires AllBefore(s, stamp, now) && NoDup(s) && k in s
    ensures AllBefore(EraseKey(s, k), stamp - {k}, now)
  {
    EraseKeyFacts(s, k);
    var r := EraseKey(s, k);
    forall x | x in r
      ensures x in stamp - {k} && (stamp - {k})[x] < now
    {
      assert x in Elems(r);
    }
  }

  /** Erasing a key from the middle keeps the remaining keys ordered by their stamps. */
  lemma EraseKeyNewest<K>(s: seq<K>, stamp: map<K, nat>, k: K, now: nat)
    requires NewestFirst(s, stamp) && AllBefore(s, stamp, now) && NoDup(s) && k in s
    ensures NewestFirst(EraseKey(s, k), stamp - {k}) && AllBefore(EraseKey(s, k), stamp - {k}, now)
  {
    NewestFirstPairwise(s, stamp);
    EraseKeyStamps(s, stamp, k);
    NewestFirstPairwise(EraseKey(s, k), stamp - {k});
    EraseKeyBefore(s, stamp, k, now);
  }

  /** `pop_back` keeps the remaining keys ordered by their stamps. */
  lemma PopBackNewest<K>(s: seq<K>, stamp: map<K, nat>, now: nat)
    requires NewestFirst(s, stamp) && AllBefore(s, stamp, now) && NoDup(s) && s != []
    ensures NewestFirst(PopBack(s), stamp - {s[|s| - 1]})
    ensures AllBefore(PopBack(s), stamp - {s[|s| - 1]}, now)
  {
    NewestFirstPairwise(s, stamp);
    var r, st := PopBack(s), stamp - {s[|s| - 1]};
    forall m | 0 <= m < |r|
      ensures r[m] in st && st[r[m]] < now
    {
      assert r[m] == s[m];
    }
    NewestFirstPairwise(r, st);
  }

  /** The back of a list ordered newest first holds the earliest stamp. */
  lemma BackIsOldest<K>(s: seq<K>, stamp: map<K, nat>)
    requires NewestFirst(s, stamp) && s != []
    ensures s[|s| - 1] in stamp
    ensures forall x :: x in s ==> x in stamp && stamp[s[|s| - 1]] <= stamp[x]
  {
    NewestFirstPairwise(s, stamp);
    forall x | x in s
      ensures x in stamp && stamp[s[|s| - 1]] <= stamp[x]
    {
      var j :| 0 <= j < |s| && s[j] == x;
      if j < |s| - 1 {
        assert stamp[s[j]] > stamp[s[|s| - 1]];
      }
    }
  }

  /** The front of a list ordered newest first holds the latest stamp. */
  lemma FrontIsNewest<K>(s: seq<K>, stamp: map<K, nat>)
    requires NewestFirst(s, stamp) && s != []
    ensures s[0] in stamp
    ensures forall x :: x in s ==> x in stamp && stamp[x] <= stamp[s[0]]
  {
    NewestFirstPairwise(s, stamp);
    forall x | x in s
      ensures x in stamp && stamp[x] <= stamp[s[0]]
    {
      var j :| 0 <= j < |s| && s[j] == x;
      if j > 0 {
        assert stamp[s[0]] > stamp[s[j]];
      }
    }
  }
}
