/**
 The server object.  Each method updates tree, indexes, cache, log and version counter in
 place and is proved to perform the corresponding step of `Server`.  The clock reading of a
 request is a parameter.
 */
module KindServer {
  import opened Prelude
  import opened Ordered
  import opened Store
  import opened Indexes
  import opened Server
  import Log = Wal
  import Slab = LruCache
  import Lru = LruSpec

  datatype DbError = Conflict | ReadOnly

  class KindServer {
    const config: Config
    const isReplica: bool
    const cache: Slab.LruCache<string, Bytes>
    const wal: Log.Wal
    var tree: Tree
    var indexes: Indexes
    var globalVersion: nat
    var snapshot: seq<SnapshotRecord>
    ghost var sent: seq<LogEntry>

    ghost predicate Valid()
      reads this, cache, wal
    {
      cache.Valid() && wal.Valid() && cache.capacity == config.capacity
    }

    ghost function Value(): State
      requires Valid()
      reads this, cache, wal
    {
      State(tree, indexes, cache.Entries(), globalVersion, wal.entries, snapshot, sent)
    }

    constructor (config: Config, codec: Log.Codec, isReplica: bool)
      requires config.capacity > 0 && Log.Faithful(codec)
      ensures Valid() && Value() == FRESH && fresh(cache) && fresh(wal)
      ensures this.config == config && this.isReplica == isReplica
    {
      this.config, this.isReplica := config, isReplica;
      cache := new Slab.LruCache(config.capacity);
      wal := new Log.Wal(codec);
      tree, indexes, globalVersion := map[], map[], 0;
      snapshot, sent := [], [];
    }

    method IndexRecord(key: string, val: Bytes)
      modifies this`indexes
      ensures indexes == AddKeys(old(indexes), config.extract(key, val), key)
    {
      var iks := config.extract(key, val);
      for i := 0 to |iks|
        invariant indexes == AddKeys(old(indexes), iks[..i], key)
      {
        assert iks[..i + 1][..i] == iks[..i];
        var ik := iks[i];
        if ik !in indexes {
          indexes := indexes[ik := {}];
        }
        indexes := indexes[ik := indexes[ik] + {key}];
      }
      assert iks[..|iks|] == iks;
    }

    method RemoveRecordFromIndex(key: string, val: Bytes)
      modifies this`indexes
      ensures indexes == RemoveKeys(old(indexes), config.extract(key, val), key)
    {
      var iks := config.extract(key, val);
      for i := 0 to |iks|
        invariant indexes == RemoveKeys(old(indexes), iks[..i], key)
      {
        assert iks[..i + 1][..i] == iks[..i];
        if iks[i] in indexes {
          indexes := indexes[iks[i] := indexes[iks[i]] - {key}];
        }
      }
      assert iks[..|iks|] == iks;
    }

    /** Takes the current record of a key, if any, out of the indexes. */
    method Unindex(key: string)
      modifies this`indexes
      ensures indexes == if key in tree then RemoveKeys(old(indexes), config.extract(key, tree[key].value), key)
                         else old(indexes)
    {
      if key in tree {
        RemoveRecordFromIndex(key, tree[key].value);
      }
    }

    /** Takes the current record of a key out of the indexes and puts a new value in. */
    method Reindex(key: string, val: Bytes)
      modifies this`indexes
      ensures var unindexed := if key in tree then RemoveKeys(old(indexes), config.extract(key, tree[key].value), key)
                               else old(indexes);
              indexes == AddKeys(unindexed, config.extract(key, val), key)
    {
      Unindex(key);
      IndexRecord(key, val);
    }

    /** Takes the next version and logs a command under it. */
    method Announce(cmd: WalCommand) returns (newVersion: nat)
      requires Valid()
      modifies this`globalVersion, this`sent, wal
      ensures Valid() && newVersion == old(globalVersion) + 1
      ensures Value() == Logged(old(Value()), cmd)
    {
      globalVersion := globalVersion + 1;
      newVersion := globalVersion;
      wal.Append(newVersion, cmd);
      sent := sent + [LogEntry(newVersion, cmd)];
    }

    /** Logs a Put and inserts its record. */
    method LogAndInsert(key: string, value: Bytes, expiresAt: Option<nat>)
      requires Valid()
      modifies this`globalVersion, this`sent, this`tree, wal
      ensures Valid()
      ensures Value() == Inserted(old(Value()), key, value, expiresAt)
    {
      var newVersion := Announce(WalCommand.Put(key, value, expiresAt));
      tree := tree[key := DbRecord(value, expiresAt, newVersion)];
    }

    method Get(key: string, now: nat) returns (answer: Option<Seen>)
      requires Valid()
      modifies this, cache
      ensures Valid()
      ensures answer == GetAnswer(old(Value()), now, key)
      ensures Value() == GetStep(config, old(Value()), now, key)
    {
      var cached := cache.Get(key);
      if cached.Some? {
        return Some(Seen(cached.value, None));
      }
      if key in tree {
        var rec := tree[key];
        if IsExpired(rec.expiresAt, now) {
          RemoveRecordFromIndex(key, rec.value);
          tree := tree - {key};
          return None;
        }
        return Some(Seen(rec.value, rec.expiresAt));
      }
      return None;
    }

    method IndexAndCache(key: string, value: Bytes, expiresAt: Option<nat>)
      requires Valid()
      modifies this`indexes, cache
      ensures Valid() && Value() == Prepared(config, old(Value()), key, value, expiresAt)
    {
      Reindex(key, value);
      if expiresAt.None? {
        cache.Put(key, value);
      }
    }

    method Put(key: string, value: Bytes, expiresAt: Option<nat>) returns (r: Result<(), DbError>)
      requires Valid()
      modifies this, cache, wal
      ensures Valid()
      ensures if isReplica then r == Err(ReadOnly) && Value() == old(Value())
              else r == Ok(()) && Value() == PutStep(config, old(Value()), key, value, expiresAt)
    {
      if isReplica {
        return Err(ReadOnly);
      }
      IndexAndCache(key, value, expiresAt);
      LogAndInsert(key, value, expiresAt);
      return Ok(());
    }

    /** Removes a present key from indexes, tree and cache. */
    method RemoveEntry(key: string)
      requires Valid() && key in tree
      modifies this`indexes, this`tree, cache
      ensures Valid()
      ensures Value() == old(Value()).(tree := old(tree) - {key}, indexes := Unindexed(config, old(Value()), key),
                                       cache := Lru.Without(old(Value()).cache, key))
    {
      RemoveRecordFromIndex(key, tree[key].value);
      tree := tree - {key};
      cache.Invalidate(key);
    }

    method Delete(key: string) returns (r: Result<bool, DbError>)
      requires Valid()
      modifies this, cache, wal
      ensures Valid()
      ensures if isReplica then r == Err(ReadOnly) && Value() == old(Value())
              else r == Ok(key in old(tree)) && Value() == DeleteStep(config, old(Value()), key)
    {
      if isReplica {
        return Err(ReadOnly);
      }
      if key in tree {
        RemoveEntry(key);
        var _ := Announce(WalCommand.Delete(key));
        return Ok(true);
      }
      return Ok(false);
    }

    method Cas(key: string, expected: Bytes, value: Bytes, expiresAt: Option<nat>, now: nat)
        returns (r: Result<bool, DbError>)
      requires Valid()
      modifies this, cache, wal
      ensures Valid()
      ensures if isReplica then r == Err(ReadOnly) && Value() == old(Value())
              else r == Ok(CasSucceeds(old(tree), now, key, expected)) &&
                   Value() == CasStep(config, old(Value()), now, key, expected, value, expiresAt)
    {
      if isReplica {
        return Err(ReadOnly);
      }
      if key in tree {
        var rec := tree[key];
        if IsExpired(rec.expiresAt, now) {
          if expected != [] {
            return Ok(false);
          }
        } else {
          if rec.value == expected {
            CasReplace(key, value, expiresAt);
            return Ok(true);
          }
          return Ok(false);
        }
      }
      if expected == [] {
        CasStore(key, value, expiresAt);
        return Ok(true);
      }
      return Ok(false);
    }

    method IndexAndInvalidate(key: string, value: Bytes)
      requires Valid()
      modifies this`indexes, cache
      ensures Valid()
      ensures Value() == old(Value()).(indexes := AddKeys(old(Value()).indexes, config.extract(key, value), key),
                                       cache := Lru.Without(old(Value()).cache, key))
    {
      IndexRecord(key, value);
      cache.Invalidate(key);
    }

    method CasStore(key: string, value: Bytes, expiresAt: Option<nat>)
      requires Valid()
      modifies this, cache, wal
      ensures Valid() && Value() == CasStored(config, old(Value()), key, value, expiresAt)
    {
      IndexAndInvalidate(key, value);
      LogAndInsert(key, value, expiresAt);
    }

    method CasReplace(key: string, value: Bytes, expiresAt: Option<nat>)
      requires Valid() && key in tree
      modifies this, cache, wal
      ensures Valid()
      ensures var unindexed := old(Value()).(indexes := Unindexed(config, old(Value()), key));
              Value() == CasStored(config, unindexed, key, value, expiresAt)
    {
      RemoveRecordFromIndex(key, tree[key].value);
      CasStore(key, value, expiresAt);
    }

    /** Looks for a record newer than the transaction's snapshot, in any order. */
    method HasConflict(ws: WriteSet, snapshotVersion: nat) returns (conflict: bool)
      ensures conflict == Conflicts(tree, ws, snapshotVersion)
    {
      var keys := ws.Keys;
      while keys != {}
        invariant keys <= ws.Keys
        invariant forall k <- ws :: k in keys || !(k in tree && tree[k].version > snapshotVersion)
        decreases |keys|
      {
        var k :| k in keys;
        if k in tree && tree[k].version > snapshotVersion {
          return true;
        }
        keys := keys - {k};
      }
      return false;
    }

    /** Lists a write set in whatever order its keys come. */
    static method ListWrites(ws: WriteSet) returns (pending: seq<WalCommand>)
      ensures Lists(pending, ws)
    {
      pending := [];
      var keys := ws.Keys;
      while keys != {}
        invariant keys <= ws.Keys
        invariant forall i :: 0 <= i < |pending| ==>
                    !pending[i].TxCommit? && pending[i].key in ws && pending[i].key !in keys &&
                    pending[i] == Command(pending[i].key, ws[pending[i].key])
        invariant forall k <- ws :: k in keys || exists i :: 0 <= i < |pending| && pending[i].key == k
        invariant forall i, j :: 0 <= i < j < |pending| ==> pending[i].key != pending[j].key
        decreases |keys|
      {
        var k :| k in keys;
        ghost var before := pending;
        pending := pending + [Command(k, ws[k])];
        keys := keys - {k};
        forall k' <- ws ensures k' in keys || exists i :: 0 <= i < |pending| && pending[i].key == k' {
          if k' == k {
            assert pending[|before|].key == k;
          } else if k' !in keys {
            var i :| 0 <= i < |before| && before[i].key == k';
            assert pending[i].key == k';
          }
        }
      }
    }

    /** Commits a write set: all of it under one version and one log entry, or none of it. */
    method Commit(ws: WriteSet, snapshotVersion: nat) returns (r: Result<(), DbError>, ghost cmds: seq<WalCommand>)
      requires Valid()
      modifies this, cache, wal
      ensures Valid() && Lists(cmds, ws)
      ensures if isReplica then r == Err(ReadOnly) && Value() == old(Value())
              else r == (if Conflicts(old(tree), ws, snapshotVersion) then Err(Conflict) else Ok(())) &&
                   Value() == CommitStep(config, old(Value()), ws, snapshotVersion, cmds)
    {
      var pending := ListWrites(ws);
      cmds := pending;
      if isReplica {
        r := Err(ReadOnly);
        return;
      }
      r := CommitListed(ws, snapshotVersion, pending);
    }

    /** The part of commit that holds the mutex. */
    method CommitListed(ws: WriteSet, snapshotVersion: nat, pending: seq<WalCommand>) returns (r: Result<(), DbError>)
      requires Valid()
      modifies this, cache, wal
      ensures Valid()
      ensures r == if Conflicts(old(tree), ws, snapshotVersion) then Err(Conflict) else Ok(())
      ensures Value() == CommitStep(config, old(Value()), ws, snapshotVersion, pending)
    {
      var conflict := HasConflict(ws, snapshotVersion);
      if conflict {
        return Err(Conflict);
      }
      LogAndApply(pending);
      return Ok(());
    }

    /** Logs a transaction as one entry and carries out its writes under one version. */
    method LogAndApply(pending: seq<WalCommand>)
      requires Valid()
      modifies this, cache, wal
      ensures Valid()
      ensures Value() == WriteSteps(config, Logged(old(Value()), TxCommit(pending)), old(Value()).version + 1, pending)
    {
      var newVersion := Announce(TxCommit(pending));
      ApplyWrites(pending, newVersion);
    }

    /** Carries out the writes of a transaction, or of a replicated command. */
    method ApplyWrites(cmds: seq<WalCommand>, version: nat)
      requires Valid()
      modifies this`tree, this`indexes, cache
      ensures Valid() && Value() == WriteSteps(config, old(Value()), version, cmds)
    {
      for i := 0 to |cmds|
        invariant Valid() && Value() == WriteSteps(config, old(Value()), version, cmds[..i])
      {
        assert cmds[..i + 1][..i] == cmds[..i];
        ApplyWrite(cmds[i], version);
      }
      assert cmds[..|cmds|] == cmds;
    }

    method ApplyWrite(cmd: WalCommand, version: nat)
      requires Valid()
      modifies this`tree, this`indexes, cache
      ensures Valid() && Value() == WriteStep(config, old(Value()), version, cmd)
    {
      match cmd {
        case Put(k, v, e) =>
          Reindex(k, v);
          tree := tree[k := DbRecord(v, e, version)];
          cache.Invalidate(k);
        case Delete(k) =>
          Unindex(k);
          tree := tree - {k};
          cache.Invalidate(k);
        case TxCommit(_) =>
      }
    }

    method EvictKey(key: string)
      requires Valid()
      modifies this`tree, this`indexes
      ensures Valid() && Value() == Evicted(config, old(Value()), key)
    {
      Unindex(key);
      tree := tree - {key};
    }

    /** The TTL sweeper: collects the expired keys, then removes them one by one. */
    method Sweep(now: nat)
      requires Valid()
      modifies this`tree, this`indexes
      ensures Valid() && Value() == SweepStep(config, old(Value()), now)
    {
      var toRemove := InOrder(ExpiredKeys(tree, now));
      for i := 0 to |toRemove|
        invariant Valid() && Value() == AllEvicted(config, old(Value()), toRemove[..i])
      {
        EvictedSnoc(config, old(Value()), toRemove, i);
        EvictKey(toRemove[i]);
      }
      assert toRemove[..|toRemove|] == toRemove;
    }

    /** Iterates over the tree and collects what has not expired. */
    static method CollectLive(t: Tree, now: nat) returns (lines: seq<SnapshotRecord>)
      ensures lines == SnapshotOf(t, now)
    {
      var keys := InOrder(t.Keys);
      lines := [];
      for i := 0 to |keys|
        invariant lines == LiveRecords(t, now, keys[..i])
      {
        assert keys[i] in keys;
        LiveRecordsSnoc(t, now, keys, i);
        if !IsExpired(t[keys[i]].expiresAt, now) {
          lines := lines + [SnapshotRecord(keys[i], t[keys[i]])];
        }
      }
      assert keys[..|keys|] == keys;
      LiveRecordsInOrder(t, now);
    }

    /** Writes the live records, in key order, as the new snapshot and empties the log. */
    method SaveSnapshotAndTruncateWal(now: nat)
      requires Valid()
      modifies this`snapshot, wal
      ensures Valid() && Value() == SnapshotStep(old(Value()), now, true)
    {
      var lines := CollectLive(tree, now);
      snapshot := lines;
      wal.Truncate();
    }
  }

  lemma EvictedSnoc(c: Config, s: State, ks: seq<string>, i: nat)
    requires i < |ks|
    ensures AllEvicted(c, s, ks[..i + 1]) == Evicted(c, AllEvicted(c, s, ks[..i]), ks[i])
  {
    assert ks[..i + 1][..i] == ks[..i];
  }

  /** The live records among the given keys, as an iteration over them collects them. */
  function LiveRecords(t: Tree, now: nat, ks: seq<string>): seq<SnapshotRecord> {
    if ks == [] then []
    else
      var k := ks[|ks| - 1];
      LiveRecords(t, now, ks[..|ks| - 1]) +
      if k in t && !IsExpired(t[k].expiresAt, now) then [SnapshotRecord(k, t[k])] else []
  }

  lemma LiveRecordsSnoc(t: Tree, now: nat, ks: seq<string>, i: nat)
    requires i < |ks| && ks[i] in t
    ensures LiveRecords(t, now, ks[..i + 1]) ==
            LiveRecords(t, now, ks[..i]) +
            if IsExpired(t[ks[i]].expiresAt, now) then [] else [SnapshotRecord(ks[i], t[ks[i]])]
  {
    assert ks[..i + 1][..i] == ks[..i];
  }

  /** `rs` holds the live records among `ks`, each once and in key order. */
  ghost predicate ListsLive(t: Tree, now: nat, ks: seq<string>, rs: seq<SnapshotRecord>) {
    && (forall i :: 0 <= i < |rs| ==> rs[i].key in LiveKeys(t, now) && rs[i].key in ks && rs[i].rec == t[rs[i].key])
    && (forall k <- ks :: k in LiveKeys(t, now) ==> exists i :: 0 <= i < |rs| && rs[i].key == k)
    && (forall i, j :: 0 <= i < j < |rs| ==> LexLt(rs[i].key, rs[j].key))
  }

  lemma ListsLiveSnoc(t: Tree, now: nat, ks: seq<string>, k: string, rs: seq<SnapshotRecord>)
    requires ListsLive(t, now, ks, rs) && k in LiveKeys(t, now) && forall x <- ks :: LexLt(x, k)
    ensures ListsLive(t, now, ks + [k], rs + [SnapshotRecord(k, t[k])])
  {
    var rs' := rs + [SnapshotRecord(k, t[k])];
    forall x <- ks + [k] | x in LiveKeys(t, now) ensures exists i :: 0 <= i < |rs'| && rs'[i].key == x {
      if x in ks {
        var i :| 0 <= i < |rs| && rs[i].key == x;
        assert rs'[i].key == x;
      } else {
        assert rs'[|rs|].key == x;
      }
    }
  }

  lemma ListsLiveSkip(t: Tree, now: nat, ks: seq<string>, k: string, rs: seq<SnapshotRecord>)
    requires ListsLive(t, now, ks, rs) && k !in LiveKeys(t, now)
    ensures ListsLive(t, now, ks + [k], rs)
  {
  }

  lemma {:induction false} LiveRecordsFacts(t: Tree, now: nat, ks: seq<string>)
    requires Sorted(ks)
    ensures ListsLive(t, now, ks, LiveRecords(t, now, ks))
  {
    if ks != [] {
      var last := |ks| - 1;
      var before, k := ks[..last], ks[last];
      LiveRecordsFacts(t, now, before);
      assert ks == before + [k];
      if k in LiveKeys(t, now) {
        ListsLiveSnoc(t, now, before, k, LiveRecords(t, now, before));
      } else {
        ListsLiveSkip(t, now, before, k, LiveRecords(t, now, before));
        assert LiveRecords(t, now, before) + [] == LiveRecords(t, now, before);
      }
    }
  }

  function KeysOf(rs: seq<SnapshotRecord>): (ks: seq<string>)
    ensures |ks| == |rs| && forall i :: 0 <= i < |rs| ==> ks[i] == rs[i].key
  {
    seq(|rs|, i requires 0 <= i < |rs| => rs[i].key)
  }

  lemma ListedKeys(t: Tree, now: nat, rs: seq<SnapshotRecord>, k: string)
    requires ListsLive(t, now, InOrder(t.Keys), rs)
    ensures k in KeysOf(rs) <==> k in LiveKeys(t, now)
  {
    if k in LiveKeys(t, now) {
      assert k in InOrder(t.Keys);
      var i :| 0 <= i < |rs| && rs[i].key == k;
      assert KeysOf(rs)[i] == k;
    }
  }

  /** Iterating over the whole tree and skipping what has expired yields the live records. */
  lemma LiveRecordsInOrder(t: Tree, now: nat)
    ensures LiveRecords(t, now, InOrder(t.Keys)) == SnapshotOf(t, now)
  {
    LiveRecordsFacts(t, now, InOrder(t.Keys));
    var rs := LiveRecords(t, now, InOrder(t.Keys));
    var live := InOrder(LiveKeys(t, now));
    forall k ensures k in KeysOf(rs) <==> k in live {
      ListedKeys(t, now, rs, k);
      assert k in live <==> k in LiveKeys(t, now);
    }
    SortedUnique(KeysOf(rs), live);
    RecordsByKey(t, rs, live);
  }

  lemma RecordsByKey(t: Tree, rs: seq<SnapshotRecord>, ks: seq<string>)
    requires forall i :: 0 <= i < |ks| ==> ks[i] in t
    requires KeysOf(rs) == ks && forall i :: 0 <= i < |rs| ==> rs[i].key in t && rs[i].rec == t[rs[i].key]
    ensures rs == Records(t, ks)
  {
    assert forall i :: 0 <= i < |rs| ==> rs[i] == SnapshotRecord(ks[i], t[ks[i]]);
  }
}
