/**
 The least-frequently-used cache: a map from keys to (value, frequency) beside a map from
 frequencies to the keys that have them.
 */
module LfuCache {
  import opened Prelude

  datatype Counted<V> = Counted(value: V, freq: nat)

  /** What has happened to the keys of a cache, oldest first. */
  datatype Event<K> = Inserted(key: K) | Hit(key: K) | Removed(key: K)

  /** The hits (gets and overwrites) of `k` since its latest insertion. */
  ghost function HitsSince<K>(trace: seq<Event<K>>, k: K): nat {
    if trace == [] then 0
    else
      var rest := trace[..|trace| - 1];
      match trace[|trace| - 1]
      case Inserted(k') => if k' == k then 0 else HitsSince(rest, k)
      case Hit(k') => HitsSince(rest, k) + if k' == k then 1 else 0
      case Removed(_) => HitsSince(rest, k)
  }

  lemma HitsStep<K>(trace: seq<Event<K>>, e: Event<K>, k: K)
    ensures HitsSince(trace + [e], k) ==
            match e
            case Inserted(k') => if k' == k then 0 else HitsSince(trace, k)
            case Hit(k') => HitsSince(trace, k) + (if k' == k then 1 else 0)
            case Removed(_) => HitsSince(trace, k)
  {
    assert (trace + [e])[..|trace|] == trace;
  }

  /** A key that no cached key undercuts in frequency: what eviction may remove. */
  ghost predicate LeastFrequent<K, V>(entries: map<K, Counted<V>>, victim: K) {
    victim in entries && forall k <- entries :: entries[victim].freq <= entries[k].freq
  }

  /** The buckets partition the cached keys by frequency, and no bucket is empty. */
  ghost predicate Bucketed<K, V>(entries: map<K, Counted<V>>, freqs: map<nat, set<K>>) {
    && (forall f <- freqs :: freqs[f] != {})
    && (forall f <- freqs, k <- freqs[f] :: k in entries && entries[k].freq == f)
    && (forall k <- entries :: entries[k].freq in freqs && k in freqs[entries[k].freq])
  }

  /** Taking a key out of its bucket, dropping the bucket when that empties it. */
  function Unbucket<K(==)>(freqs: map<nat, set<K>>, f: nat, k: K): map<nat, set<K>> {
    if f !in freqs then freqs
    else if freqs[f] - {k} == {} then freqs - {f}
    else freqs[f := freqs[f] - {k}]
  }

  function Bucket<K(==)>(freqs: map<nat, set<K>>, f: nat, k: K): map<nat, set<K>> {
    freqs[f := (if f in freqs then freqs[f] else {}) + {k}]
  }

  lemma UnbucketKeeps<K, V>(entries: map<K, Counted<V>>, freqs: map<nat, set<K>>, k: K)
    requires Bucketed(entries, freqs) && k in entries
    ensures Bucketed(entries - {k}, Unbucket(freqs, entries[k].freq, k))
  {
  }

  lemma BucketKeeps<K, V>(entries: map<K, Counted<V>>, freqs: map<nat, set<K>>, k: K, c: Counted<V>)
    requires Bucketed(entries, freqs) && k !in entries
    ensures Bucketed(entries[k := c], Bucket(freqs, c.freq, k))
  {
  }

  lemma BucketRevalue<K, V>(entries: map<K, Counted<V>>, freqs: map<nat, set<K>>, k: K, v: V)
    requires Bucketed(entries, freqs) && k in entries
    ensures Bucketed(entries[k := Counted(v, entries[k].freq)], freqs)
  {
  }

  /** Every frequency is one plus the hits since the latest insertion. */
  ghost predicate Tallied<K, V>(entries: map<K, Counted<V>>, trace: seq<Event<K>>) {
    forall k <- entries :: entries[k].freq == 1 + HitsSince(trace, k)
  }

  lemma TallyHit<K, V>(entries: map<K, Counted<V>>, trace: seq<Event<K>>, key: K, v: V)
    requires Tallied(entries, trace) && key in entries
    ensures Tallied(entries[key := Counted(v, entries[key].freq + 1)], trace + [Hit(key)])
  {
    forall k <- entries { HitsStep(trace, Hit(key), k); }
  }

  lemma TallyInsert<K, V>(entries: map<K, Counted<V>>, trace: seq<Event<K>>, key: K, v: V)
    requires Tallied(entries, trace)
    ensures Tallied(entries[key := Counted(v, 1)], trace + [Inserted(key)])
  {
    forall k { HitsStep(trace, Inserted(key), k); }
  }

  lemma TallyRemove<K, V>(entries: map<K, Counted<V>>, trace: seq<Event<K>>, key: K)
    requires Tallied(entries, trace)
    ensures Tallied(entries - {key}, trace + [Removed(key)])
  {
    forall k <- entries { HitsStep(trace, Removed(key), k); }
  }

  lemma UpdateTwice<K, V>(m: map<K, V>, k: K, v: V, v': V)
    ensures m[k := v][k := v'] == m[k := v']
  {
  }

  /** The first key of an ordered map. */
  method FirstKey<T>(m: map<nat, T>) returns (least: nat)
    requires m.Keys != {}
    ensures least in m && forall f <- m :: least <= f
  {
    var keys := m.Keys;
    least :| least in keys;
    keys := keys - {least};
    while keys != {}
      invariant keys <= m.Keys && least in m
      invariant forall f <- m :: f in keys || least <= f
      decreases |keys|
    {
      var f :| f in keys;
      if f < least {
        least := f;
      }
      keys := keys - {f};
    }
  }

  class LfuCache<K(==), V> {
    const capacity: nat
    var entries: map<K, Counted<V>>
    var freqs: map<nat, set<K>>
    ghost var trace: seq<Event<K>>

    ghost predicate Valid()
      reads this
    {
      && 0 < capacity && |entries| <= capacity
      && Bucketed(entries, freqs)
      && Tallied(entries, trace)
    }

    constructor (capacity: nat)
      requires capacity > 0
      ensures Valid() && entries == map[] && trace == [] && this.capacity == capacity
    {
      this.capacity := capacity;
      entries, freqs, trace := map[], map[], [];
    }

    method IncrementFreq(key: K, currentFreq: nat)
      requires key in entries && entries[key].freq == currentFreq && Bucketed(entries, freqs)
      modifies this`entries, this`freqs
      ensures entries == old(entries)[key := Counted(old(entries)[key].value, currentFreq + 1)]
      ensures Bucketed(entries, freqs)
    {
      UnbucketKeeps(entries, freqs, key);
      if currentFreq in freqs {
        freqs := freqs[currentFreq := freqs[currentFreq] - {key}];
        if freqs[currentFreq] == {} {
          freqs := freqs - {currentFreq};
        }
      }
      assert freqs == Unbucket(old(freqs), currentFreq, key);
      var newFreq := currentFreq + 1;
      BucketKeeps(entries - {key}, freqs, key, Counted(entries[key].value, newFreq));
      freqs := Bucket(freqs, newFreq, key);
      entries := entries[key := entries[key].(freq := newFreq)];
      assert entries == (old(entries) - {key})[key := Counted(old(entries)[key].value, newFreq)];
    }

    /** Answers from the cache; a hit counts towards the key's frequency. */
    method Get(key: K) returns (answer: Option<V>)
      requires Valid()
      modifies this
      ensures Valid()
      ensures answer == if key in old(entries) then Some(old(entries)[key].value) else None
      ensures key !in old(entries) ==> entries == old(entries) && trace == old(trace)
      ensures key in old(entries) ==>
                entries == old(entries)[key := Counted(old(entries)[key].value, old(entries)[key].freq + 1)] &&
                trace == old(trace) + [Hit(key)]
    {
      if key in entries {
        TallyHit(entries, trace, key, entries[key].value);
        IncrementFreq(key, entries[key].freq);
        trace := trace + [Hit(key)];
        answer := Some(entries[key].value);
      } else {
        answer := None;
      }
    }

    /** Stores an entry.  A full cache first gives up a key of minimum frequency. */
    method Put(key: K, value: V) returns (ghost evicted: Option<K>)
      requires Valid()
      modifies this
      ensures Valid()
      ensures key in old(entries) ==>
                evicted == None && trace == old(trace) + [Hit(key)] &&
                entries == old(entries)[key := Counted(value, old(entries)[key].freq + 1)]
      ensures key !in old(entries) && |old(entries)| < capacity ==>
                evicted == None && trace == old(trace) + [Inserted(key)] &&
                entries == old(entries)[key := Counted(value, 1)]
      ensures key !in old(entries) && |old(entries)| >= capacity ==>
                evicted.Some? && LeastFrequent(old(entries), evicted.value) &&
                trace == old(trace) + [Removed(evicted.value), Inserted(key)] &&
                entries == (old(entries) - {evicted.value})[key := Counted(value, 1)]
    {
      evicted := None;
      if key in entries {
        Overwrite(key, value);
        return;
      }
      if |entries| >= capacity {
        evicted := Evict();
        assert trace + [Inserted(key)] == old(trace) + [Removed(evicted.value), Inserted(key)];
      }
      TallyInsert(entries, trace, key, value);
      BucketKeeps(entries, freqs, key, Counted(value, 1));
      freqs := Bucket(freqs, 1, key);
      entries := entries[key := Counted(value, 1)];
      trace := trace + [Inserted(key)];
    }

    /** `put` of a key that is present. */
    method Overwrite(key: K, value: V)
      requires Valid() && key in entries
      modifies this
      ensures Valid()
      ensures trace == old(trace) + [Hit(key)]
      ensures entries == old(entries)[key := Counted(value, old(entries)[key].freq + 1)]
    {
      var currentFreq := entries[key].freq;
      BucketRevalue(entries, freqs, key, value);
      TallyHit(entries, trace, key, value);
      UpdateTwice(entries, key, Counted(value, currentFreq), Counted(value, currentFreq + 1));
      entries := entries[key := Counted(value, currentFreq)];
      IncrementFreq(key, currentFreq);
      trace := trace + [Hit(key)];
    }

    /** The eviction inside `put`: some key of the bucket with the lowest frequency. */
    method Evict() returns (ghost evicted: Option<K>)
      requires Valid() && |entries| >= capacity
      modifies this
      ensures Valid() && |entries| < capacity
      ensures evicted.Some? && LeastFrequent(old(entries), evicted.value)
      ensures entries == old(entries) - {evicted.value}
      ensures trace == old(trace) + [Removed(evicted.value)]
    {
      ghost var some :| some in entries;
      assert entries[some].freq in freqs;
      var minFreq := FirstKey(freqs);
      var victim :| victim in freqs[minFreq];
      assert LeastFrequent(entries, victim);
      RemoveKey(victim);
      evicted := Some(victim);
    }

    method RemoveKey(key: K)
      requires Valid() && key in entries
      modifies this
      ensures Valid() && entries == old(entries) - {key} && trace == old(trace) + [Removed(key)]
      ensures |entries| == |old(entries)| - 1
    {
      UnbucketKeeps(entries, freqs, key);
      TallyRemove(entries, trace, key);
      assert (entries - {key}).Keys == entries.Keys - {key};
      freqs := Unbucket(freqs, entries[key].freq, key);
      entries := entries - {key};
      trace := trace + [Removed(key)];
    }

    method Invalidate(key: K)
      requires Valid()
      modifies this
      ensures Valid() && entries == old(entries) - {key}
      ensures trace == if key in old(entries) then old(trace) + [Removed(key)] else old(trace)
    {
      if key in entries {
        RemoveKey(key);
      }
    }
  }
}
