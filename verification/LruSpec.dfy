/**
 What a least-recently-used cache means: a sequence of entries, most recently used
 first, cut off at the capacity.  The slab in `LruCache` refines these functions.
 */
module LruSpec {
  import opened Prelude

  datatype Entry<K, V> = Entry(key: K, value: V)

  ghost predicate DistinctKeys<K, V>(r: seq<Entry<K, V>>) {
    forall i, j :: 0 <= i < j < |r| ==> r[i].key != r[j].key
  }

  function Lookup<K(==), V>(r: seq<Entry<K, V>>, k: K): Option<V> {
    if r == [] then None
    else if r[0].key == k then Some(r[0].value)
    else Lookup(r[1..], k)
  }

  /** The entries other than the one of `k`, in the same order. */
  function Without<K(==), V>(r: seq<Entry<K, V>>, k: K): seq<Entry<K, V>> {
    if r == [] then []
    else if r[0].key == k then Without(r[1..], k)
    else [r[0]] + Without(r[1..], k)
  }

  function Cut<T>(s: seq<T>, n: nat): seq<T> {
    if |s| <= n then s else s[..n]
  }

  function Put<K(==), V>(capacity: nat, r: seq<Entry<K, V>>, k: K, v: V): seq<Entry<K, V>> {
    Cut([Entry(k, v)] + Without(r, k), capacity)
  }

  function Touch<K(==), V>(r: seq<Entry<K, V>>, k: K): seq<Entry<K, V>> {
    match Lookup(r, k)
    case None => r
    case Some(v) => [Entry(k, v)] + Without(r, k)
  }

  // --- Elementary facts -----------------------------------------------------------

  lemma {:induction false} LookupAbsent<K, V>(r: seq<Entry<K, V>>, k: K)
    requires forall i :: 0 <= i < |r| ==> r[i].key != k
    ensures Lookup(r, k) == None && Without(r, k) == r
  {
    if r != [] {
      LookupAbsent(r[1..], k);
    }
  }

  /** Removing an entry is cutting it out at its position. */
  lemma {:induction false} WithoutAt<K, V>(r: seq<Entry<K, V>>, i: nat)
    requires DistinctKeys(r) && i < |r|
    ensures Lookup(r, r[i].key) == Some(r[i].value)
    ensures Without(r, r[i].key) == r[..i] + r[i + 1..]
  {
    if i == 0 {
      LookupAbsent(r[1..], r[0].key);
    } else {
      WithoutAt(r[1..], i - 1);
      assert r[..i] + r[i + 1..] == [r[0]] + (r[1..][..i - 1] + r[1..][i..]);
    }
  }

  lemma {:induction false} LookupFound<K, V>(r: seq<Entry<K, V>>, k: K) returns (i: nat)
    requires Lookup(r, k).Some?
    ensures i < |r| && r[i] == Entry(k, Lookup(r, k).value)
  {
    if r[0].key == k {
      i := 0;
    } else {
      i := LookupFound(r[1..], k);
      i := i + 1;
    }
  }

  /** `Without` keeps the order and drops exactly one key. */
  lemma {:induction false} WithoutLookup<K, V>(r: seq<Entry<K, V>>, k: K, k': K)
    ensures Lookup(Without(r, k), k') == if k == k' then None else Lookup(r, k')
  {
    if r != [] {
      WithoutLookup(r[1..], k, k');
    }
  }

  lemma {:induction false} WithoutDistinct<K, V>(r: seq<Entry<K, V>>, k: K)
    requires DistinctKeys(r)
    ensures DistinctKeys(Without(r, k))
    ensures forall i :: 0 <= i < |Without(r, k)| ==> Without(r, k)[i].key != k
    ensures forall i :: 0 <= i < |Without(r, k)| ==> Without(r, k)[i] in r
    ensures |Without(r, k)| <= |r|
  {
    if r != [] {
      WithoutDistinct(r[1..], k);
    }
  }

  lemma {:induction false} LookupCut<K, V>(r: seq<Entry<K, V>>, n: nat, k: K)
    requires DistinctKeys(r)
    ensures Lookup(Cut(r, n), k).Some? ==> Lookup(r, k) == Lookup(Cut(r, n), k)
  {
    if Lookup(Cut(r, n), k).Some? {
      var i := LookupFound(Cut(r, n), k);
      WithoutAt(r, i);
    }
  }

  lemma PutDistinct<K, V>(capacity: nat, r: seq<Entry<K, V>>, k: K, v: V)
    requires DistinctKeys(r)
    ensures DistinctKeys(Put(capacity, r, k, v)) && |Put(capacity, r, k, v)| <= capacity
  {
    WithoutDistinct(r, k);
  }

  lemma TouchDistinct<K, V>(r: seq<Entry<K, V>>, k: K)
    requires DistinctKeys(r)
    ensures DistinctKeys(Touch(r, k)) && |Touch(r, k)| == |r|
    ensures forall k' :: Lookup(Touch(r, k), k') == Lookup(r, k')
  {
    WithoutDistinct(r, k);
    forall k' ensures Lookup(Touch(r, k), k') == Lookup(r, k') { WithoutLookup(r, k, k'); }
    if Lookup(r, k).Some? {
      var i := LookupFound(r, k);
      WithoutAt(r, i);
    }
  }

  /** Answers after an insertion: the new value for its own key; any other key keeps its
      answer or, when it was the entry cut off, loses it. */
  lemma PutLookup<K, V>(capacity: nat, r: seq<Entry<K, V>>, k: K, v: V, k': K)
    requires DistinctKeys(r) && capacity > 0
    ensures Lookup(Put(capacity, r, k, v), k) == Some(v)
    ensures k' != k && Lookup(Put(capacity, r, k, v), k').Some? ==>
              Lookup(Put(capacity, r, k, v), k') == Lookup(r, k')
  {
    WithoutDistinct(r, k);
    var all := [Entry(k, v)] + Without(r, k);
    LookupCut(all, capacity, k');
    WithoutLookup(r, k, k');
    assert all[1..] == Without(r, k);
    assert Cut(all, capacity)[0] == Entry(k, v);
  }

  lemma PutNoCut<K, V>(capacity: nat, r: seq<Entry<K, V>>, k: K, v: V, k': K)
    requires DistinctKeys(r) && |r| <= capacity && (Lookup(r, k).None? ==> |r| < capacity)
    ensures Lookup(Put(capacity, r, k, v), k') == if k' == k then Some(v) else Lookup(r, k')
  {
    WithoutLookup(r, k, k');
    WithoutDistinct(r, k);
    if Lookup(r, k).Some? {
      var i := LookupFound(r, k);
      WithoutAt(r, i);
    }
    assert ([Entry(k, v)] + Without(r, k))[1..] == Without(r, k);
  }

  lemma PutCuts<K, V>(r: seq<Entry<K, V>>, k: K, v: V)
    requires r != [] && Lookup(r, k).None?
    ensures Put(|r|, r, k, v) == [Entry(k, v)] + r[..|r| - 1]
  {
    LookupNone(r, k);
    LookupAbsent(r, k);
  }

  /** An insertion costs exactly the last entry when a new key comes to a full cache, and no entry
      otherwise. */
  lemma PutExact<K, V>(capacity: nat, r: seq<Entry<K, V>>, k: K, v: V, i: nat)
    requires DistinctKeys(r) && 0 < |r| <= capacity && i < |r| && r[i].key != k
    ensures Lookup(Put(capacity, r, k, v), r[i].key) ==
            if Lookup(r, k).None? && |r| == capacity && i == |r| - 1 then None else Some(r[i].value)
  {
    if Lookup(r, k).None? && |r| == capacity {
      PutCuts(r, k, v);
      LookupIn(r[..|r| - 1], r, i);
      assert ([Entry(k, v)] + r[..|r| - 1])[1..] == r[..|r| - 1];
    } else {
      PutNoCut(capacity, r, k, v, r[i].key);
      WithoutAt(r, i);
    }
  }

  lemma LookupIn<K, V>(s: seq<Entry<K, V>>, r: seq<Entry<K, V>>, i: nat)
    requires DistinctKeys(r) && s <= r && i < |r|
    ensures Lookup(s, r[i].key) == if i < |s| then Some(r[i].value) else None
  {
    if i < |s| {
      WithoutAt(s, i);
    } else {
      LookupAbsent(s, r[i].key);
    }
  }

  // --- Recency over whole traces ---------------------------------------------------

  datatype Op<K, V> = OpPut(key: K, value: V) | OpGet(key: K) | OpInvalidate(key: K)

  function Apply<K(==), V>(capacity: nat, r: seq<Entry<K, V>>, op: Op<K, V>): seq<Entry<K, V>> {
    match op
    case OpPut(k, v) => Put(capacity, r, k, v)
    case OpGet(k) => Touch(r, k)
    case OpInvalidate(k) => Without(r, k)
  }

  /** The cache after a trace, starting empty. */
  function After<K(==), V>(capacity: nat, trace: seq<Op<K, V>>): seq<Entry<K, V>> {
    if trace == [] then [] else Apply(capacity, After(capacity, trace[..|trace| - 1]), trace[|trace| - 1])
  }

  predicate Touches<K(==), V>(op: Op<K, V>, k: K) {
    !op.OpInvalidate? && op.key == k
  }

  /** One plus the position of the last put or get of `k` in the trace; 0 if there is none. */
  function LastTouch<K(==), V>(trace: seq<Op<K, V>>, k: K): nat {
    if trace == [] then 0
    else if Touches(trace[|trace| - 1], k) then |trace|
    else LastTouch(trace[..|trace| - 1], k)
  }

  /** The value of the last put of `k`, unless `k` was invalidated after it. */
  function LastValue<K(==), V>(trace: seq<Op<K, V>>, k: K): Option<V> {
    if trace == [] then None
    else
      var op := trace[|trace| - 1];
      if op.key != k || op.OpGet? then LastValue(trace[..|trace| - 1], k)
      else if op.OpPut? then Some(op.value) else None
  }

  lemma {:induction false} LastTouchBound<K, V>(trace: seq<Op<K, V>>, k: K)
    ensures LastTouch(trace, k) <= |trace|
  {
    if trace != [] && !Touches(trace[|trace| - 1], k) {
      LastTouchBound(trace[..|trace| - 1], k);
    }
  }

  ghost predicate ByRecency<K, V>(r: seq<Entry<K, V>>, trace: seq<Op<K, V>>) {
    forall i, j :: 0 <= i < j < |r| ==> LastTouch(trace, r[i].key) > LastTouch(trace, r[j].key)
  }

  ghost predicate Fresh<K, V>(r: seq<Entry<K, V>>, trace: seq<Op<K, V>>) {
    forall i :: 0 <= i < |r| ==> LastValue(trace, r[i].key) == Some(r[i].value)
  }

  /** `Without` removes positions but never swaps two entries. */
  lemma {:induction false} WithoutByRecency<K, V>(r: seq<Entry<K, V>>, trace: seq<Op<K, V>>, k: K)
    requires DistinctKeys(r) && ByRecency(r, trace)
    ensures ByRecency(Without(r, k), trace)
  {
    if r != [] {
      WithoutByRecency(r[1..], trace, k);
      WithoutDistinct(r[1..], k);
      var w := Without(r, k);
      forall i, j | 0 <= i < j < |w| ensures LastTouch(trace, w[i].key) > LastTouch(trace, w[j].key) {
        if r[0].key != k && i == 0 {
          assert w[j] == Without(r[1..], k)[j - 1];
        }
      }
    }
  }

  lemma WithoutFresh<K, V>(r: seq<Entry<K, V>>, trace: seq<Op<K, V>>, k: K)
    requires DistinctKeys(r) && Fresh(r, trace)
    ensures Fresh(Without(r, k), trace)
  {
    WithoutDistinct(r, k);
  }

  /** The new entry at the front is touched last; the others are as recent as before. */
  lemma FrontStep<K, V>(trace: seq<Op<K, V>>, op: Op<K, V>, rest: seq<Entry<K, V>>, v: V)
    requires DistinctKeys(rest) && (forall i :: 0 <= i < |rest| ==> rest[i].key != op.key)
    requires ByRecency(rest, trace) && Fresh(rest, trace)
    requires !op.OpInvalidate? && LastValue(trace + [op], op.key) == Some(v)
    ensures ByRecency([Entry(op.key, v)] + rest, trace + [op])
    ensures Fresh([Entry(op.key, v)] + rest, trace + [op])
  {
    assert (trace + [op])[..|trace|] == trace;
    var r := [Entry(op.key, v)] + rest;
    forall i | 0 <= i < |rest|
      ensures LastTouch(trace + [op], rest[i].key) == LastTouch(trace, rest[i].key) <= |trace|
      ensures LastValue(trace + [op], rest[i].key) == Some(rest[i].value)
    {
      LastTouchBound(trace, rest[i].key);
    }
    assert forall i :: 0 < i < |r| ==> r[i] == rest[i - 1];
  }

  /** Main theorem on recency: after every trace the cache holds at most `capacity` distinct
      keys, strictly ordered by their last put or get, each with the value last put.  So the
      entry at the end, the one an insertion evicts, is the least recently touched. */
  lemma {:induction false} RecencyOrder<K, V>(capacity: nat, trace: seq<Op<K, V>>)
    ensures var r := After(capacity, trace);
            DistinctKeys(r) && |r| <= capacity && ByRecency(r, trace) && Fresh(r, trace)
  {
    if trace != [] {
      var n := |trace| - 1;
      var before, op := trace[..n], trace[n];
      assert trace == before + [op];
      RecencyOrder(capacity, before);
      var r := After(capacity, before);
      WithoutDistinct(r, op.key);
      WithoutByRecency(r, before, op.key);
      WithoutFresh(r, before, op.key);
      var w := Without(r, op.key);
      match op
      case OpPut(k, v) =>
        FrontStep(before, op, w, v);
      case OpInvalidate(k) =>
      case OpGet(k) =>
        TouchDistinct(r, k);
        if Lookup(r, k).Some? {
          var i := LookupFound(r, k);
          FrontStep(before, op, w, r[i].value);
        } else {
          LookupNone(r, k);
        }
    }
  }

  lemma {:induction false} LookupNone<K, V>(r: seq<Entry<K, V>>, k: K)
    requires Lookup(r, k) == None
    ensures forall i :: 0 <= i < |r| ==> r[i].key != k
  {
    if r != [] {
      LookupNone(r[1..], k);
      assert forall i :: 0 < i < |r| ==> r[i] == r[1..][i - 1];
    }
  }

  ghost predicate PutsOnly<K, V>(trace: seq<Op<K, V>>, keys: set<K>) {
    forall i :: 0 <= i < |trace| && trace[i].OpPut? ==> trace[i].key in keys
  }

  lemma {:induction false} ValueWasPut<K, V>(trace: seq<Op<K, V>>, keys: set<K>, k: K)
    requires PutsOnly(trace, keys) && LastValue(trace, k).Some?
    ensures k in keys
  {
    var last := |trace| - 1;
    if trace[last].key != k || trace[last].OpGet? {
      ValueWasPut(trace[..last], keys, k);
    }
  }

  lemma KeysFit<K, V>(r: seq<Entry<K, V>>, k: K, keys: set<K>)
    requires DistinctKeys(r) && Lookup(r, k).None? && k in keys
    requires forall i :: 0 <= i < |r| ==> r[i].key in keys
    ensures |r| < |keys|
  {
    LookupNone(r, k);
    var cached := KeysOf(r);
    DistinctCardinality(cached);
    var known := (set x | x in cached) + {k};
    assert k !in cached && keys == known + (keys - known);
  }

  /** A cache with room for all keys ever put forgets nothing: every key has the value last put and
      not invalidated since. */
  lemma {:induction false} RoomForAll<K, V>(capacity: nat, trace: seq<Op<K, V>>, keys: set<K>, k: K)
    requires PutsOnly(trace, keys) && |keys| <= capacity
    ensures Lookup(After(capacity, trace), k) == LastValue(trace, k)
  {
    if trace != [] {
      var before, op := trace[..|trace| - 1], trace[|trace| - 1];
      var r := After(capacity, before);
      RoomForAll(capacity, before, keys, k);
      RecencyOrder(capacity, before);
      match op
      case OpInvalidate(x) => WithoutLookup(r, x, k);
      case OpGet(x) => TouchDistinct(r, x);
      case OpPut(x, v) =>
        if Lookup(r, x).None? {
          forall i | 0 <= i < |r| ensures r[i].key in keys { ValueWasPut(before, keys, r[i].key); }
          KeysFit(r, x, keys);
        }
        PutNoCut(capacity, r, x, v, k);
    }
  }

  // --- Inclusion -------------------------------------------------------------------

  function KeysOf<K, V>(r: seq<Entry<K, V>>): (s: seq<K>)
    ensures |s| == |r|
    ensures forall i :: 0 <= i < |r| ==> s[i] == r[i].key
  {
    seq(|r|, i requires 0 <= i < |r| => r[i].key)
  }

  /** The access patterns of a client that fills the cache on a miss. */
  datatype Access<K, V> = Store(key: K, value: V) | Drop(key: K) | Fetch(key: K, value: V)

  function Perform<K(==), V>(capacity: nat, r: seq<Entry<K, V>>, a: Access<K, V>): seq<Entry<K, V>> {
    match a
    case Store(k, v) => Put(capacity, r, k, v)
    case Drop(k) => Without(r, k)
    case Fetch(k, v) => if Lookup(r, k).Some? then Touch(r, k) else Put(capacity, r, k, v)
  }

  function Performed<K(==), V>(capacity: nat, trace: seq<Access<K, V>>): seq<Entry<K, V>> {
    if trace == [] then []
    else Perform(capacity, Performed(capacity, trace[..|trace| - 1]), trace[|trace| - 1])
  }

  lemma {:induction false} KeysWithout<K, V>(r: seq<Entry<K, V>>, k: K)
    ensures KeysOf(Without(r, k)) == WithoutKey(KeysOf(r), k)
  {
    if r != [] {
      KeysWithout(r[1..], k);
      assert KeysOf(r)[1..] == KeysOf(r[1..]);
      assert KeysOf(Without(r, k)) == (if r[0].key == k then [] else [r[0].key]) + KeysOf(Without(r[1..], k));
    }
  }

  lemma {:induction false} WithoutKeyPrefix<K>(s: seq<K>, t: seq<K>, k: K)
    requires s <= t
    ensures WithoutKey(s, k) <= WithoutKey(t, k)
  {
    if s != [] {
      WithoutKeyPrefix(s[1..], t[1..], k);
    }
  }

  /** On keys, storing and fetching both move the key to the front and cut at the capacity. */
  function Front<K(==)>(capacity: nat, s: seq<K>, k: K): seq<K> {
    Cut([k] + WithoutKey(s, k), capacity)
  }

  lemma PerformKeys<K, V>(capacity: nat, r: seq<Entry<K, V>>, a: Access<K, V>)
    requires DistinctKeys(r) && |r| <= capacity
    ensures DistinctKeys(Perform(capacity, r, a)) && |Perform(capacity, r, a)| <= capacity
    ensures KeysOf(Perform(capacity, r, a)) ==
            if a.Drop? then WithoutKey(KeysOf(r), a.key) else Front(capacity, KeysOf(r), a.key)
  {
    WithoutDistinct(r, a.key);
    if a.Drop? {
      KeysWithout(r, a.key);
    } else if a.Fetch? && Lookup(r, a.key).Some? {
      TouchDistinct(r, a.key);
      TouchKeys(r, a.key);
    } else {
      PutDistinct(capacity, r, a.key, a.value);
      PutKeys(capacity, r, a.key, a.value);
    }
  }

  lemma PutKeys<K, V>(capacity: nat, r: seq<Entry<K, V>>, k: K, v: V)
    ensures KeysOf(Put(capacity, r, k, v)) == Front(capacity, KeysOf(r), k)
  {
    KeysWithout(r, k);
  }

  /** LRU inclusion: on one trace of stores, drops and fetches (a read that stores on a
      miss) the keys of the smaller cache are, in recency order, a prefix of the larger's. */
  lemma {:induction false} Inclusion<K, V>(small: nat, large: nat, trace: seq<Access<K, V>>)
    requires small <= large
    ensures KeysOf(Performed(small, trace)) <= KeysOf(Performed(large, trace))
    ensures DistinctKeys(Performed(small, trace)) && |Performed(small, trace)| <= small
    ensures DistinctKeys(Performed(large, trace)) && |Performed(large, trace)| <= large
  {
    if trace != [] {
      var n := |trace| - 1;
      var before, a := trace[..n], trace[n];
      Inclusion(small, large, before);
      var s, l := Performed(small, before), Performed(large, before);
      PerformKeys(small, s, a);
      PerformKeys(large, l, a);
      WithoutKeyPrefix(KeysOf(s), KeysOf(l), a.key);
    }
  }

  /** A bare read is different: it keeps the inclusion exactly when both caches answer it
      alike or the smaller one is empty. */
  lemma BareReadInclusion<K, V>(s: seq<Entry<K, V>>, l: seq<Entry<K, V>>, k: K)
    requires DistinctKeys(s) && DistinctKeys(l) && KeysOf(s) <= KeysOf(l)
    ensures KeysOf(Touch(s, k)) <= KeysOf(Touch(l, k)) <==>
            (Lookup(s, k).Some? || Lookup(l, k).None? || s == [])
  {
    if Lookup(s, k).Some? {
      BareReadHit(s, l, k);
    } else {
      LookupNone(s, k);
      if Lookup(l, k).Some? && s != [] {
        assert KeysOf(Touch(l, k))[0] == k && KeysOf(Touch(s, k))[0] == s[0].key;
      }
    }
  }

  lemma BareReadHit<K, V>(s: seq<Entry<K, V>>, l: seq<Entry<K, V>>, k: K)
    requires DistinctKeys(s) && DistinctKeys(l) && KeysOf(s) <= KeysOf(l) && Lookup(s, k).Some?
    ensures KeysOf(Touch(s, k)) <= KeysOf(Touch(l, k))
  {
    var i := LookupFound(s, k);
    assert KeysOf(s)[i] == KeysOf(l)[i] == k;
    WithoutAt(l, i);
    TouchKeys(s, k);
    TouchKeys(l, k);
    WithoutKeyPrefix(KeysOf(s), KeysOf(l), k);
  }

  lemma TouchKeys<K, V>(r: seq<Entry<K, V>>, k: K)
    requires Lookup(r, k).Some?
    ensures KeysOf(Touch(r, k)) == [k] + WithoutKey(KeysOf(r), k)
  {
    KeysWithout(r, k);
  }
}
