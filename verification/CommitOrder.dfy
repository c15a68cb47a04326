/**
 The order in which a write set is listed plays no part: commit and replay end in the same tree,
 the same indexes and the same cache.
 */
module CommitOrder {
  import opened Prelude
  import opened Store
  import opened Indexes
  import opened Server
  import opened History
  import opened IndexRuns
  import opened Restart
  import Lru = LruSpec

  /** Single commands, each about a key of its own. */
  ghost predicate OnePerKey(cmds: seq<WalCommand>) {
    && (forall i :: 0 <= i < |cmds| ==> !cmds[i].TxCommit?)
    && (forall i, j :: 0 <= i < j < |cmds| && !cmds[i].TxCommit? && !cmds[j].TxCommit? ==> cmds[i].key != cmds[j].key)
  }

  /** A value with the index key is written. */
  predicate Brings(c: Config, w: Option<Write>, ik: string, k: string) {
    w.Some? && w.value.Stored? && ik in c.extract(k, w.value.value)
  }

  lemma LastIsOnly(cmds: seq<WalCommand>, k: string)
    requires OnePerKey(cmds) && cmds != [] && cmds[|cmds| - 1].key == k
    ensures WriteAll(cmds[..|cmds| - 1], k) == None
  {
    WriteAllAbsent(cmds[..|cmds| - 1], k);
  }

  // --- Commit ------------------------------------------------------------------------------------------

  lemma WriteStepAt(c: Config, s: State, ver: nat, cmd: WalCommand, ik: string, k: string)
    requires !cmd.TxCommit?
    ensures InIndex(WriteStep(c, s, ver, cmd).indexes, ik, k) <==>
            if cmd.key == k then
              (InIndex(s.indexes, ik, k) && !Files(c, s.tree, ik, k)) || Brings(c, WriteOne(cmd, k), ik, k)
            else InIndex(s.indexes, ik, k)
    ensures ik in WriteStep(c, s, ver, cmd).indexes <==>
            ik in s.indexes || Brings(c, WriteOne(cmd, cmd.key), ik, cmd.key)
  {
    UnindexedAt(c, s, cmd.key, ik, k);
    if cmd.Put? {
      AddKeysAt(Unindexed(c, s, cmd.key), c.extract(cmd.key, cmd.value), cmd.key, ik, k);
      AddKeysDomain(Unindexed(c, s, cmd.key), c.extract(cmd.key, cmd.value), cmd.key);
    }
  }

  /** What a commit leaves in the indexes, key by key. */
  lemma {:induction false} WriteStepsAt(c: Config, s: State, ver: nat, cmds: seq<WalCommand>, ik: string, k: string)
    requires OnePerKey(cmds)
    ensures InIndex(WriteSteps(c, s, ver, cmds).indexes, ik, k) <==>
            if WriteAll(cmds, k).None? then InIndex(s.indexes, ik, k)
            else (InIndex(s.indexes, ik, k) && !Files(c, s.tree, ik, k)) || Brings(c, WriteAll(cmds, k), ik, k)
  {
    if cmds != [] {
      var before, cmd := cmds[..|cmds| - 1], cmds[|cmds| - 1];
      var s1 := WriteSteps(c, s, ver, before);
      WriteStepsAt(c, s, ver, before, ik, k);
      WriteStepAt(c, s1, ver, cmd, ik, k);
      if cmd.key == k {
        LastIsOnly(cmds, k);
        WriteStepsFrame(c, s, ver, before);
        ApplyAllAt(s.tree, ver, before, k);
        assert Find(s1.tree, k) == Find(s.tree, k);
      }
    }
  }

  /** Some written value has the index key. */
  ghost predicate BroughtBy(c: Config, cmds: seq<WalCommand>, ik: string) {
    exists i :: 0 <= i < |cmds| && !cmds[i].TxCommit? && Brings(c, WriteOne(cmds[i], cmds[i].key), ik, cmds[i].key)
  }

  lemma BroughtBySnoc(c: Config, cmds: seq<WalCommand>, ik: string)
    requires cmds != [] && OnePerKey(cmds)
    ensures var cmd := cmds[|cmds| - 1];
            BroughtBy(c, cmds, ik) <==>
            BroughtBy(c, cmds[..|cmds| - 1], ik) || Brings(c, WriteOne(cmd, cmd.key), ik, cmd.key)
  {
    var before := cmds[..|cmds| - 1];
    if BroughtBy(c, before, ik) {
      var i :| 0 <= i < |before| && !before[i].TxCommit? &&
          Brings(c, WriteOne(before[i], before[i].key), ik, before[i].key);
      assert cmds[i] == before[i];
    }
    if BroughtBy(c, cmds, ik) {
      var i :| 0 <= i < |cmds| && !cmds[i].TxCommit? && Brings(c, WriteOne(cmds[i], cmds[i].key), ik, cmds[i].key);
      assert i < |before| ==> before[i] == cmds[i];
    }
  }

  lemma {:induction false} WriteStepsDomain(c: Config, s: State, ver: nat, cmds: seq<WalCommand>, ik: string)
    requires OnePerKey(cmds)
    ensures ik in WriteSteps(c, s, ver, cmds).indexes <==> ik in s.indexes || BroughtBy(c, cmds, ik)
  {
    if cmds != [] {
      var before, cmd := cmds[..|cmds| - 1], cmds[|cmds| - 1];
      WriteStepsDomain(c, s, ver, before, ik);
      WriteStepAt(c, WriteSteps(c, s, ver, before), ver, cmd, ik, cmd.key);
      BroughtBySnoc(c, cmds, ik);
    }
  }

  lemma BroughtByListing(c: Config, cs: seq<WalCommand>, ws: WriteSet, ik: string)
    requires Lists(cs, ws)
    ensures BroughtBy(c, cs, ik) <==> exists k <- ws :: Brings(c, Some(ws[k]), ik, k)
  {
    if exists k <- ws :: Brings(c, Some(ws[k]), ik, k) {
      var k :| k in ws && Brings(c, Some(ws[k]), ik, k);
      var i :| 0 <= i < |cs| && cs[i].key == k;
      assert Brings(c, WriteOne(cs[i], cs[i].key), ik, cs[i].key);
    }
  }

  function WithoutAll(r: seq<Lru.Entry<string, Bytes>>, ks: set<string>): seq<Lru.Entry<string, Bytes>> {
    if r == [] then [] else (if r[0].key in ks then [] else [r[0]]) + WithoutAll(r[1..], ks)
  }

  lemma {:induction false} WithoutOneMore(r: seq<Lru.Entry<string, Bytes>>, ks: set<string>, k: string)
    ensures Lru.Without(WithoutAll(r, ks), k) == WithoutAll(r, ks + {k})
  {
    if r != [] {
      WithoutOneMore(r[1..], ks, k);
      var rest := WithoutAll(r[1..], ks);
      if r[0].key in ks {
        assert [] + rest == rest && WithoutAll(r, ks) == rest;
        assert WithoutAll(r, ks + {k}) == WithoutAll(r[1..], ks + {k});
      } else {
        assert ([r[0]] + rest)[1..] == rest;
        assert r[0].key == k ==> [] + WithoutAll(r[1..], ks + {k}) == WithoutAll(r[1..], ks + {k});
      }
    }
  }

  lemma {:induction false} WithoutNone(r: seq<Lru.Entry<string, Bytes>>)
    ensures WithoutAll(r, {}) == r
  {
    if r != [] {
      WithoutNone(r[1..]);
    }
  }

  function KeysOf(cmds: seq<WalCommand>): set<string> {
    if cmds == [] then {}
    else KeysOf(cmds[..|cmds| - 1]) + if cmds[|cmds| - 1].TxCommit? then {} else {cmds[|cmds| - 1].key}
  }

  lemma {:induction false} KeysOfAre(cmds: seq<WalCommand>, k: string)
    ensures k in KeysOf(cmds) <==> exists i :: 0 <= i < |cmds| && !cmds[i].TxCommit? && cmds[i].key == k
  {
    if cmds != [] {
      var before := cmds[..|cmds| - 1];
      KeysOfAre(before, k);
      if exists i :: 0 <= i < |before| && !before[i].TxCommit? && before[i].key == k {
        var i :| 0 <= i < |before| && !before[i].TxCommit? && before[i].key == k;
        assert cmds[i] == before[i];
      }
      if exists i :: 0 <= i < |cmds| && !cmds[i].TxCommit? && cmds[i].key == k {
        var i :| 0 <= i < |cmds| && !cmds[i].TxCommit? && cmds[i].key == k;
        assert i < |before| ==> before[i] == cmds[i];
      }
    }
  }

  lemma KeysOfListing(cs: seq<WalCommand>, ws: WriteSet)
    requires Lists(cs, ws)
    ensures KeysOf(cs) == ws.Keys
  {
    forall k ensures k in KeysOf(cs) <==> k in ws {
      KeysOfAre(cs, k);
      if k in ws {
        var i :| 0 <= i < |cs| && cs[i].key == k;
        assert !cs[i].TxCommit?;
      }
    }
  }

  lemma {:induction false} WriteStepsCacheIs(c: Config, s: State, ver: nat, cmds: seq<WalCommand>)
    ensures WriteSteps(c, s, ver, cmds).cache == WithoutAll(s.cache, KeysOf(cmds))
  {
    if cmds == [] {
      WithoutNone(s.cache);
    } else {
      var before, cmd := cmds[..|cmds| - 1], cmds[|cmds| - 1];
      WriteStepsCacheIs(c, s, ver, before);
      if cmd.TxCommit? {
        assert KeysOf(before) + {} == KeysOf(before);
      } else {
        WithoutOneMore(s.cache, KeysOf(before), cmd.key);
      }
    }
  }

  /** Main theorem for commit: the whole state it leads to does not depend on the order in which
      the write set was listed. */
  lemma CommitOrderIrrelevant(c: Config, s: State, ver: nat, cs: seq<WalCommand>, cs': seq<WalCommand>, ws: WriteSet)
    requires Lists(cs, ws) && Lists(cs', ws)
    ensures WriteSteps(c, s, ver, cs) == WriteSteps(c, s, ver, cs')
  {
    WriteStepsFrame(c, s, ver, cs);
    WriteStepsFrame(c, s, ver, cs');
    ListingIrrelevant(s.tree, ver, cs, cs', ws);
    KeysOfListing(cs, ws);
    KeysOfListing(cs', ws);
    WriteStepsCacheIs(c, s, ver, cs);
    WriteStepsCacheIs(c, s, ver, cs');
    SameIndexes(c, s, ver, cs, cs', ws);
  }

  lemma SameIndexes(c: Config, s: State, ver: nat, cs: seq<WalCommand>, cs': seq<WalCommand>, ws: WriteSet)
    requires Lists(cs, ws) && Lists(cs', ws)
    ensures WriteSteps(c, s, ver, cs).indexes == WriteSteps(c, s, ver, cs').indexes
  {
    var ix, ix' := WriteSteps(c, s, ver, cs).indexes, WriteSteps(c, s, ver, cs').indexes;
    forall ik ensures ik in ix <==> ik in ix' {
      WriteStepsDomain(c, s, ver, cs, ik);
      WriteStepsDomain(c, s, ver, cs', ik);
      BroughtByListing(c, cs, ws, ik);
      BroughtByListing(c, cs', ws, ik);
    }
    forall ik, k ensures InIndex(ix, ik, k) <==> InIndex(ix', ik, k) {
      WriteStepsAt(c, s, ver, cs, ik, k);
      WriteStepsAt(c, s, ver, cs', ik, k);
      ListedWrite(cs, ws, k);
      ListedWrite(cs', ws, k);
    }
    IndexesEqual(ix, ix');
  }

  // --- Replay ------------------------------------------------------------------------------------------

  lemma ReplayOneAt(c: Config, b: Rebuilt, cmd: WalCommand, version: nat, now: nat, ik: string, k: string)
    requires !cmd.TxCommit?
    ensures InIndex(ReplayOne(c, b, cmd, version, now).indexes, ik, k) <==>
            match Effective(WriteOne(cmd, k), now)
            case None => InIndex(b.indexes, ik, k)
            case Some(Removed) => InIndex(b.indexes, ik, k) && !Files(c, b.tree, ik, k)
            case Some(Stored(v, _)) => InIndex(b.indexes, ik, k) || ik in c.extract(k, v)
    ensures ik in ReplayOne(c, b, cmd, version, now).indexes <==>
            ik in b.indexes || Brings(c, Effective(WriteOne(cmd, cmd.key), now), ik, cmd.key)
  {
    match cmd
    case Put(k', v, _) =>
      AddKeysAt(b.indexes, c.extract(k', v), k', ik, k);
      AddKeysDomain(b.indexes, c.extract(k', v), k');
    case Delete(k') =>
      if k' in b.tree {
        RemoveKeysAt(b.indexes, c.extract(k', b.tree[k'].value), k', ik, k);
        RemoveKeysDomain(b.indexes, c.extract(k', b.tree[k'].value), k');
      }
  }

  lemma LastIsOnlyEffective(cmds: seq<WalCommand>, k: string, now: nat)
    requires OnePerKey(cmds) && cmds != [] && cmds[|cmds| - 1].key == k
    ensures EffectiveAll(cmds[..|cmds| - 1], k, now) == None
  {
    EffectiveAllAbsent(cmds[..|cmds| - 1], k, now);
  }

  lemma {:induction false} ReplayIndexAt(c: Config, b: Rebuilt, cmds: seq<WalCommand>, version: nat, now: nat,
                                         ik: string, k: string)
    requires OnePerKey(cmds)
    ensures InIndex(ReplayMany(c, b, cmds, version, now).indexes, ik, k) <==>
            match EffectiveAll(cmds, k, now)
            case None => InIndex(b.indexes, ik, k)
            case Some(Removed) => InIndex(b.indexes, ik, k) && !Files(c, b.tree, ik, k)
            case Some(Stored(v, _)) => InIndex(b.indexes, ik, k) || ik in c.extract(k, v)
  {
    if cmds != [] {
      var before, cmd := cmds[..|cmds| - 1], cmds[|cmds| - 1];
      var b1 := ReplayMany(c, b, before, version, now);
      ReplayIndexAt(c, b, before, version, now, ik, k);
      ReplayOneAt(c, b1, cmd, version, now, ik, k);
      if cmd.key == k {
        LastIsOnlyEffective(cmds, k, now);
        ReplayManyAt(c, b, before, version, now, k);
        assert Find(b1.tree, k) == Find(b.tree, k);
      }
    }
  }

  ghost predicate ReplayBrings(c: Config, cmds: seq<WalCommand>, now: nat, ik: string) {
    exists i :: 0 <= i < |cmds| && !cmds[i].TxCommit? &&
                Brings(c, Effective(WriteOne(cmds[i], cmds[i].key), now), ik, cmds[i].key)
  }

  lemma ReplayBringsSnoc(c: Config, cmds: seq<WalCommand>, now: nat, ik: string)
    requires cmds != [] && OnePerKey(cmds)
    ensures var cmd := cmds[|cmds| - 1];
            ReplayBrings(c, cmds, now, ik) <==>
            ReplayBrings(c, cmds[..|cmds| - 1], now, ik) ||
                Brings(c, Effective(WriteOne(cmd, cmd.key), now), ik, cmd.key)
  {
    var before := cmds[..|cmds| - 1];
    if ReplayBrings(c, before, now, ik) {
      var i :| 0 <= i < |before| && !before[i].TxCommit? &&
               Brings(c, Effective(WriteOne(before[i], before[i].key), now), ik, before[i].key);
      assert cmds[i] == before[i];
    }
    if ReplayBrings(c, cmds, now, ik) {
      var i :| 0 <= i < |cmds| && !cmds[i].TxCommit? &&
               Brings(c, Effective(WriteOne(cmds[i], cmds[i].key), now), ik, cmds[i].key);
      assert i < |before| ==> before[i] == cmds[i];
    }
  }

  lemma {:induction false} ReplayDomain(c: Config, b: Rebuilt, cmds: seq<WalCommand>, version: nat, now: nat,
                                        ik: string)
    requires OnePerKey(cmds)
    ensures ik in ReplayMany(c, b, cmds, version, now).indexes <==> ik in b.indexes || ReplayBrings(c, cmds, now, ik)
  {
    if cmds != [] {
      var before, cmd := cmds[..|cmds| - 1], cmds[|cmds| - 1];
      ReplayDomain(c, b, before, version, now, ik);
      ReplayOneAt(c, ReplayMany(c, b, before, version, now), cmd, version, now, ik, cmd.key);
      ReplayBringsSnoc(c, cmds, now, ik);
    }
  }

  lemma ReplayBringsListing(c: Config, cs: seq<WalCommand>, ws: WriteSet, now: nat, ik: string)
    requires Lists(cs, ws)
    ensures ReplayBrings(c, cs, now, ik) <==> exists k <- ws :: Brings(c, Effective(Some(ws[k]), now), ik, k)
  {
    if exists k <- ws :: Brings(c, Effective(Some(ws[k]), now), ik, k) {
      var k :| k in ws && Brings(c, Effective(Some(ws[k]), now), ik, k);
      var i :| 0 <= i < |cs| && cs[i].key == k;
      assert Brings(c, Effective(WriteOne(cs[i], cs[i].key), now), ik, cs[i].key);
    }
  }

  lemma SameRebuiltTree(c: Config, b: Rebuilt, cs: seq<WalCommand>, cs': seq<WalCommand>, ws: WriteSet,
                        version: nat, now: nat)
    requires Lists(cs, ws) && Lists(cs', ws)
    ensures var r, r' := ReplayMany(c, b, cs, version, now), ReplayMany(c, b, cs', version, now);
            r.tree == r'.tree && r.maxVer == r'.maxVer == b.maxVer
  {
    var r, r' := ReplayMany(c, b, cs, version, now), ReplayMany(c, b, cs', version, now);
    ReplayManyAt(c, b, cs, version, now, []);
    ReplayManyAt(c, b, cs', version, now, []);
    forall k ensures Find(r.tree, k) == Find(r'.tree, k) {
      ReplayManyAt(c, b, cs, version, now, k);
      ReplayManyAt(c, b, cs', version, now, k);
      ListedEffective(cs, ws, k, now);
      ListedEffective(cs', ws, k, now);
    }
    TreesEqual(r.tree, r'.tree);
  }

  lemma SameRebuiltIndexes(c: Config, b: Rebuilt, cs: seq<WalCommand>, cs': seq<WalCommand>, ws: WriteSet,
                           version: nat, now: nat)
    requires Lists(cs, ws) && Lists(cs', ws)
    ensures ReplayMany(c, b, cs, version, now).indexes == ReplayMany(c, b, cs', version, now).indexes
  {
    var ix, ix' := ReplayMany(c, b, cs, version, now).indexes, ReplayMany(c, b, cs', version, now).indexes;
    forall ik ensures ik in ix <==> ik in ix' {
      ReplayDomain(c, b, cs, version, now, ik);
      ReplayDomain(c, b, cs', version, now, ik);
      ReplayBringsListing(c, cs, ws, now, ik);
      ReplayBringsListing(c, cs', ws, now, ik);
    }
    forall ik, k ensures InIndex(ix, ik, k) <==> InIndex(ix', ik, k) {
      ReplayIndexAt(c, b, cs, version, now, ik, k);
      ReplayIndexAt(c, b, cs', version, now, ik, k);
      ListedEffective(cs, ws, k, now);
      ListedEffective(cs', ws, k, now);
    }
    IndexesEqual(ix, ix');
  }

  /** Main theorem for replay: nor does the state that replaying a transaction leads to. */
  lemma ReplayOrderIrrelevant(c: Config, b: Rebuilt, cs: seq<WalCommand>, cs': seq<WalCommand>, ws: WriteSet,
                              version: nat, now: nat)
    requires Lists(cs, ws) && Lists(cs', ws)
    ensures ReplayMany(c, b, cs, version, now) == ReplayMany(c, b, cs', version, now)
  {
    SameRebuiltTree(c, b, cs, cs', ws, version, now);
    SameRebuiltIndexes(c, b, cs, cs', ws, version, now);
  }
}
