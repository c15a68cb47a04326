/**
 The first-in-first-out cache: a queue of keys beside a map.  It refines a sequence of
 entries in insertion order, oldest first.
 */
module FifoCache {
  import opened Prelude

  /** Insertion keeps the newest `capacity` keys; an overwrite keeps the key's place. */
  ghost function PutOrder<K>(capacity: nat, order: seq<K>, k: K): seq<K>
    requires capacity > 0
  {
    if k in order then order
    else if |order| < capacity then order + [k]
    else order[|order| - capacity + 1..] + [k]
  }

  /** An insertion costs the oldest key when a new one comes to a full cache, and no key otherwise. */
  lemma PutOrderExact<K>(capacity: nat, order: seq<K>, k: K, x: K)
    requires 0 < capacity && |order| <= capacity && Distinct(order)
    ensures x in PutOrder(capacity, order, k) <==>
            x == k || (x in order && !(k !in order && |order| == capacity && x == order[0]))
  {
    if k !in order && |order| == capacity {
      assert order == [order[0]] + order[1..];
      assert order[0] !in order[1..];
    }
  }

  lemma {:induction false} WithoutKeyFacts<K>(order: seq<K>, k: K)
    requires Distinct(order)
    ensures Distinct(WithoutKey(order, k))
    ensures forall x <- WithoutKey(order, k) :: x in order && x != k
    ensures forall x <- order :: x != k ==> x in WithoutKey(order, k)
    ensures |WithoutKey(order, k)| <= |order|
  {
    if order != [] {
      var rest := order[1..];
      WithoutKeyFacts(rest, k);
      assert order == [order[0]] + rest;
      assert order[0] !in rest;
    }
  }

  lemma {:induction false} WithoutKeyAbsent<K>(order: seq<K>, k: K)
    requires k !in order
    ensures WithoutKey(order, k) == order
  {
    if order != [] {
      WithoutKeyAbsent(order[1..], k);
    }
  }

  /** The queue lists the cached keys, each once. */
  ghost predicate Queued<K, V>(entries: map<K, V>, queue: seq<K>) {
    Distinct(queue) && (forall k <- queue :: k in entries) && (forall k <- entries :: k in queue)
  }

  lemma QueuedSize<K, V>(entries: map<K, V>, queue: seq<K>)
    requires Queued(entries, queue)
    ensures |entries| == |queue|
  {
    DistinctCardinality(queue);
    assert entries.Keys == set k | k in queue;
  }

  lemma QueuedPop<K, V>(entries: map<K, V>, queue: seq<K>)
    requires Queued(entries, queue) && queue != []
    ensures Queued(entries - {queue[0]}, queue[1..])
  {
    assert queue == [queue[0]] + queue[1..];
    assert queue[0] !in queue[1..];
  }

  lemma QueuedPush<K, V>(entries: map<K, V>, queue: seq<K>, k: K, v: V)
    requires Queued(entries, queue) && k !in entries
    ensures Queued(entries[k := v], queue + [k])
  {
  }

  lemma QueuedWithout<K, V>(entries: map<K, V>, queue: seq<K>, key: K)
    requires Queued(entries, queue)
    ensures Queued(entries - {key}, WithoutKey(queue, key))
    ensures |WithoutKey(queue, key)| <= |queue|
  {
    WithoutKeyFacts(queue, key);
  }

  class FifoCache<K(==), V> {
    const capacity: nat
    var entries: map<K, V>
    var queue: seq<K>

    ghost predicate Valid()
      reads this
    {
      0 < capacity && |queue| <= capacity && Queued(entries, queue)
    }

    constructor (capacity: nat)
      requires capacity > 0
      ensures Valid() && queue == [] && this.capacity == capacity
    {
      this.capacity := capacity;
      entries, queue := map[], [];
    }

    /** A read changes nothing, in particular not the order. */
    method Get(key: K) returns (answer: Option<V>)
      requires Valid()
      ensures answer == if key in entries then Some(entries[key]) else None
    {
      if key in entries {
        answer := Some(entries[key]);
      } else {
        answer := None;
      }
    }

    /** Stores an entry; the loop that makes room evicts the oldest key, and ends. */
    method Put(key: K, value: V)
      requires Valid()
      modifies this
      ensures Valid()
      ensures queue == PutOrder(capacity, old(queue), key)
      ensures forall k <- entries ::
                if k == key then entries[k] == value else k in old(entries) && entries[k] == old(entries)[k]
    {
      if key in entries {
        entries := entries[key := value];
        return;
      }
      QueuedSize(entries, queue);
      MakeRoom();
      QueuedPush(entries, queue, key, value);
      queue := queue + [key];
      entries := entries[key := value];
    }

    /** The loop inside `put`: it pops the oldest keys until there is room. */
    method MakeRoom()
      requires Valid() && |entries| == |queue|
      modifies this
      ensures |queue| < capacity && Queued(entries, queue)
      ensures queue == if |old(queue)| < capacity then old(queue) else old(queue)[|old(queue)| - capacity + 1..]
      ensures forall k <- entries :: k in old(entries) && entries[k] == old(entries)[k]
    {
      ghost var dropped := 0;
      while |entries| >= capacity
        invariant 0 <= dropped <= |old(queue)| && queue == old(queue)[dropped..]
        invariant dropped == 0 || |queue| == capacity - 1
        invariant Queued(entries, queue) && |entries| == |queue|
        invariant forall k <- entries :: k in old(entries) && entries[k] == old(entries)[k]
        decreases |entries|
      {
        if |queue| > 0 {
          QueuedPop(entries, queue);
          var evictKey := queue[0];
          queue := queue[1..];
          entries := entries - {evictKey};
          dropped := dropped + 1;
          QueuedSize(entries, queue);
        }
      }
    }

    method Invalidate(key: K)
      requires Valid()
      modifies this
      ensures Valid() && entries == old(entries) - {key}
      ensures queue == WithoutKey(old(queue), key)
    {
      if key in entries {
        QueuedWithout(entries, queue, key);
        entries := entries - {key};
        queue := WithoutKey(queue, key);
      } else {
        WithoutKeyAbsent(queue, key);
      }
    }
  }
}
