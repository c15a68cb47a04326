/**
 The version counter and the versions of records after a restart.
 */
module RestartVersions {
  import opened Prelude
  import opened Ordered
  import opened Store
  import opened Server
  import opened History
  import opened Restart

  /** Positive ids in increasing order, as in every log file the server writes. */
  ghost predicate Ascending(log: seq<LogEntry>) {
    && (forall i :: 0 <= i < |log| ==> log[i].id > 0)
    && (forall i, j :: 0 <= i < j < |log| ==> log[i].id < log[j].id)
  }

  lemma {:induction false} LoadMaxVer(c: Config, recs: seq<SnapshotRecord>, now: nat)
    ensures var m := Load(c, recs, now).maxVer;
            && (forall i :: 0 <= i < |recs| && !IsExpired(recs[i].rec.expiresAt, now) ==> recs[i].rec.version <= m)
            && (m == 0 ||
                exists i :: 0 <= i < |recs| && !IsExpired(recs[i].rec.expiresAt, now) && recs[i].rec.version == m)
  {
    if recs != [] {
      LoadMaxVer(c, recs[..|recs| - 1], now);
      var m := Load(c, recs[..|recs| - 1], now).maxVer;
      if m != 0 && Load(c, recs, now).maxVer == m {
        var i :| 0 <= i < |recs| - 1 && !IsExpired(recs[i].rec.expiresAt, now) && recs[i].rec.version == m;
        assert recs[i].rec.version == m;
      }
    }
  }

  lemma ReplayEntryMaxVer(c: Config, b: Rebuilt, e: LogEntry, now: nat)
    requires e.id > 0
    ensures ReplayEntry(c, b, e, now).maxVer == Max(b.maxVer, e.id)
  {
    if e.cmd.TxCommit? {
      ReplayManyAt(c, b.(maxVer := Max(b.maxVer, e.id)), e.cmd.cmds, Max(b.maxVer, e.id) + 1, now, []);
    }
  }

  lemma {:induction false} ReplayMaxVer(c: Config, b: Rebuilt, log: seq<LogEntry>, now: nat)
    requires Ascending(log)
    ensures Replay(c, b, log, now).maxVer == if log == [] then b.maxVer else Max(b.maxVer, log[|log| - 1].id)
  {
    if log != [] {
      var last := |log| - 1;
      ReplayMaxVer(c, b, log[..last], now);
      ReplayEntryMaxVer(c, Replay(c, b, log[..last], now), log[last], now);
    }
  }

  ghost predicate SnapshotBounded(s: State) {
    forall i :: 0 <= i < |s.snapshot| ==> s.snapshot[i].rec.version <= s.version
  }

  lemma {:induction false} RunSnapshotBounded(c: Config, evs: seq<Event>)
    requires Timely(evs)
    ensures SnapshotBounded(Run(c, FRESH, evs))
  {
    if evs != [] {
      TimelyPrefix(evs);
      var before, ev := evs[..|evs| - 1], evs[|evs| - 1];
      var s := Run(c, FRESH, before);
      RunSnapshotBounded(c, before);
      ExecEffect(c, s, ev);
      if ev.op.OpSnapshot? {
        var ks := InOrder(LiveKeys(s.tree, ev.now));
        forall i | 0 <= i < |ks| ensures ks[i] in s.tree && s.tree[ks[i]].version <= s.version {
          assert ks[i] in LiveKeys(s.tree, ev.now);
          RecordIsLastWrite(c, before, ks[i]);
        }
      }
    }
  }

  lemma WalAscending(c: Config, evs: seq<Event>)
    ensures Ascending(Run(c, FRESH, evs).wal)
    ensures var s := Run(c, FRESH, evs); s.wal != [] ==> s.wal[|s.wal| - 1].id == s.version
  {
    RunNumbered(c, evs);
    var s := Run(c, FRESH, evs);
    assert forall i :: 0 <= i < |s.wal| ==> s.wal[i] == s.sent[|s.sent| - |s.wal| + i];
  }

  /** Restart recovers the version counter exactly when the log is not empty or the newest
      write is still in the snapshot and unexpired; otherwise it falls back, and ids that
      followers have already seen are issued again. */
  lemma RestartVersion(c: Config, evs: seq<Event>, now: nat)
    requires Timely(evs)
    ensures var s := Run(c, FRESH, evs);
            var restarted := Rebuild(c, s.snapshot, s.wal, now).maxVer;
            && restarted <= s.version
            && (restarted == s.version <==>
                (s.version == 0 || s.wal != [] ||
                 exists i :: 0 <= i < |s.snapshot| && !IsExpired(s.snapshot[i].rec.expiresAt, now) &&
                             s.snapshot[i].rec.version == s.version))
  {
    var s := Run(c, FRESH, evs);
    RunSnapshotBounded(c, evs);
    WalAscending(c, evs);
    LoadMaxVer(c, s.snapshot, now);
    ReplayMaxVer(c, Load(c, s.snapshot, now), s.wal, now);
  }

  /** A run after which the counter falls back to zero: put, delete, snapshot. */
  lemma RestartReusesIds(c: Config, k: string, v: Bytes, now: nat)
    ensures var evs := [At(0, OpPut(k, v, None)), At(0, OpDelete(k)), At(0, OpSnapshot(true))];
            var s := Run(c, FRESH, evs);
            Timely(evs) && s.version == 2 && Rebuild(c, s.snapshot, s.wal, now).maxVer == 0
  {
    var evs := [At(0, OpPut(k, v, None)), At(0, OpDelete(k)), At(0, OpSnapshot(true))];
    RunSnoc(c, FRESH, evs, 0);
    RunSnoc(c, FRESH, evs, 1);
    RunSnoc(c, FRESH, evs, 2);
    assert evs[..0] == [] && evs[..3] == evs;
    var s1 := Exec(c, FRESH, evs[0]);
    var s2 := Exec(c, s1, evs[1]);
    assert s1.tree.Keys == {k};
    assert s2.tree == map[];
    assert LiveKeys(s2.tree, 0) == {};
  }

  // --- Records newer than the counter ----------------------------------------------------------

  ghost predicate VersionsBounded(b: Rebuilt, bound: nat) {
    forall k :: k in b.tree ==> b.tree[k].version <= bound
  }

  lemma {:induction false} LoadBounded(c: Config, recs: seq<SnapshotRecord>, now: nat)
    ensures VersionsBounded(Load(c, recs, now), Load(c, recs, now).maxVer)
  {
    if recs != [] {
      LoadBounded(c, recs[..|recs| - 1], now);
    }
  }

  /** What one replayed entry does to the counter and to the version of a key. */
  lemma ReplayEntryVersion(c: Config, b: Rebuilt, e: LogEntry, now: nat, k: string)
    ensures var b' := ReplayEntry(c, b, e, now);
            && b'.maxVer == (if e.id > 0 then Max(b.maxVer, e.id) else b.maxVer + 1) >= b.maxVer
            && Find(b'.tree, k) ==
               match EffectiveOf(e.cmd, k, now)
               case None => Find(b.tree, k)
               case Some(w) => Written(w, if e.cmd.TxCommit? then b'.maxVer + 1 else b'.maxVer)
  {
    if e.cmd.TxCommit? {
      var m := if e.id > 0 then Max(b.maxVer, e.id) else b.maxVer + 1;
      ReplayManyAt(c, b.(maxVer := m), e.cmd.cmds, m + 1, now, k);
    }
  }

  lemma {:induction false} ReplayMonotone(c: Config, b: Rebuilt, log: seq<LogEntry>, now: nat, n: nat)
    requires n <= |log|
    ensures Replay(c, b, log[..n], now).maxVer <= Replay(c, b, log, now).maxVer
  {
    if n == |log| {
      assert log[..n] == log;
    } else {
      var last := |log| - 1;
      ReplayMonotone(c, b, log[..last], now, n);
      assert log[..last][..n] == log[..n];
      ReplayEntryVersion(c, Replay(c, b, log[..last], now), log[last], now, []);
    }
  }

  /** Entry `i` is a transaction that stores `k`, replay carries out no later write of `k`, and
      no later entry raises the counter. */
  ghost predicate StampsAbove(c: Config, b: Rebuilt, log: seq<LogEntry>, now: nat, k: string, i: nat) {
    && i < |log| && log[i].cmd.TxCommit?
    && EffectiveOf(log[i].cmd, k, now).Some? && EffectiveOf(log[i].cmd, k, now).value.Stored?
    && (forall j :: i < j < |log| ==> EffectiveOf(log[j].cmd, k, now).None?)
    && Replay(c, b, log[..i + 1], now).maxVer == Replay(c, b, log, now).maxVer
  }

  ghost predicate Overstamped(c: Config, b: Rebuilt, log: seq<LogEntry>, now: nat, k: string) {
    exists i :: StampsAbove(c, b, log, now, k, i)
  }

  /** The record of `k` is newer than the counter. */
  predicate Above(b: Rebuilt, k: string) {
    k in b.tree && b.tree[k].version > b.maxVer
  }

  lemma StampsAboveSnoc(c: Config, b: Rebuilt, log: seq<LogEntry>, e: LogEntry, now: nat, k: string, i: nat)
    requires i < |log|
    ensures var m, m' := Replay(c, b, log, now).maxVer, Replay(c, b, log + [e], now).maxVer;
            StampsAbove(c, b, log + [e], now, k, i) <==>
            StampsAbove(c, b, log, now, k, i) && EffectiveOf(e.cmd, k, now).None? && m == m'
  {
    var log' := log + [e];
    assert log'[..|log|] == log && log'[..i + 1] == log[..i + 1];
    ReplayMonotone(c, b, log, now, i + 1);
    ReplayEntryVersion(c, Replay(c, b, log, now), e, now, k);
    assert forall j :: 0 <= j < |log| ==> log'[j] == log[j];
    assert log'[|log|] == e;
  }

  /** Whatever the files hold, replay leaves a record newer than the counter exactly when such
      an entry stored it. */
  lemma {:induction false} AboveExact(c: Config, b: Rebuilt, log: seq<LogEntry>, now: nat, k: string)
    requires VersionsBounded(b, b.maxVer)
    ensures Above(Replay(c, b, log, now), k) <==> Overstamped(c, b, log, now, k)
    ensures var b' := Replay(c, b, log, now); k in b'.tree ==> b'.tree[k].version <= b'.maxVer + 1
  {
    if log != [] {
      var last := |log| - 1;
      var before, e := log[..last], log[last];
      AboveExact(c, b, before, now, k);
      var b1, b2 := Replay(c, b, before, now), Replay(c, b, log, now);
      ReplayEntryVersion(c, b1, e, now, k);
      assert Find(b2.tree, k) == if k in b2.tree then Some(b2.tree[k]) else None;
      assert before + [e] == log;
      AboveStep(c, b, before, e, now, k);
    }
  }

  lemma AboveStep(c: Config, b: Rebuilt, before: seq<LogEntry>, e: LogEntry, now: nat, k: string)
    requires var b1 := Replay(c, b, before, now);
             (Above(b1, k) <==> Overstamped(c, b, before, now, k)) &&
             (k in b1.tree ==> b1.tree[k].version <= b1.maxVer + 1)
    ensures Above(Replay(c, b, before + [e], now), k) <==> Overstamped(c, b, before + [e], now, k)
  {
    var last, log := |before|, before + [e];
    assert log[..last] == before && log[..last + 1] == log && log[last] == e;
    var b1, b2 := Replay(c, b, before, now), Replay(c, b, log, now);
    ReplayEntryVersion(c, b1, e, now, k);
    var w := EffectiveOf(e.cmd, k, now);
    if w.Some? {
      assert StampsAbove(c, b, log, now, k, last) <==> e.cmd.TxCommit? && w.value.Stored?;
      forall i | StampsAbove(c, b, log, now, k, i) ensures i == last { }
    } else {
      if Above(b2, k) {
        var i :| StampsAbove(c, b, before, now, k, i);
        StampsAboveSnoc(c, b, before, e, now, k, i);
      }
      forall i | StampsAbove(c, b, log, now, k, i) ensures Above(b2, k) {
        StampsAboveSnoc(c, b, before, e, now, k, i);
      }
    }
  }

  lemma ConflictsAbove(b: Rebuilt, k: string, w: Write)
    ensures Conflicts(b.tree, map[k := w], b.maxVer) <==> Above(b, k)
  {
    assert k in map[k := w];
  }

  /** Replay stamps transactional writes one above the counter.  So right after any restart a
      transaction, whose snapshot is the counter, conflicts on a key, although nothing was
      written since, exactly when some entry stamps the key above all that follows.  No
      assumption is made about the files. */
  lemma ReplayConflict(c: Config, recs: seq<SnapshotRecord>, log: seq<LogEntry>, now: nat, k: string, w: Write)
    ensures var b := Rebuild(c, recs, log, now);
            Conflicts(b.tree, map[k := w], b.maxVer) <==> Overstamped(c, Load(c, recs, now), log, now, k)
  {
    LoadBounded(c, recs, now);
    AboveExact(c, Load(c, recs, now), log, now, k);
    ConflictsAbove(Rebuild(c, recs, log, now), k, w);
  }

  /** Entry `i` of a server's log is a transaction whose Put of `k` replay carries out last,
      and no later entry has a higher id than both it and the newest record of the snapshot. */
  ghost predicate LastStoredByTx(wal: seq<LogEntry>, loaded: nat, now: nat, k: string, i: nat) {
    && i < |wal| && wal[i].cmd.TxCommit?
    && EffectiveOf(wal[i].cmd, k, now).Some? && EffectiveOf(wal[i].cmd, k, now).value.Stored?
    && (forall j :: i < j < |wal| ==> EffectiveOf(wal[j].cmd, k, now).None?)
    && Max(loaded, wal[i].id) == Max(loaded, wal[|wal| - 1].id)
  }

  ghost predicate StoredByTx(wal: seq<LogEntry>, loaded: nat, now: nat, k: string) {
    exists i :: LastStoredByTx(wal, loaded, now, k, i)
  }

  /** The same over runs, with snapshots anywhere in them, truncated or not: the last write of
      the key that replay carries out is inside a transaction that is the last entry, or that a
      snapshot record is newer than the whole log. */
  lemma SpuriousConflict(c: Config, evs: seq<Event>, now: nat, k: string, w: Write)
    ensures var s := Run(c, FRESH, evs);
            var b := Rebuild(c, s.snapshot, s.wal, now);
            var loaded := Load(c, s.snapshot, now).maxVer;
            Conflicts(b.tree, map[k := w], b.maxVer) <==> StoredByTx(s.wal, loaded, now, k)
  {
    var s := Run(c, FRESH, evs);
    var start := Load(c, s.snapshot, now);
    ReplayConflict(c, s.snapshot, s.wal, now, k, w);
    WalAscending(c, evs);
    forall i: nat ensures StampsAbove(c, start, s.wal, now, k, i) <==> LastStoredByTx(s.wal, start.maxVer, now, k, i) {
      if i < |s.wal| {
        StampsOver(c, start, s.wal, now, k, i);
      }
    }
  }

  lemma StampsOver(c: Config, b: Rebuilt, log: seq<LogEntry>, now: nat, k: string, i: nat)
    requires Ascending(log) && i < |log|
    ensures StampsAbove(c, b, log, now, k, i) <==> LastStoredByTx(log, b.maxVer, now, k, i)
  {
    ReplayMaxVer(c, b, log, now);
    ReplayMaxVer(c, b, log[..i + 1], now);
  }

  function CommitRun(a: string, b: string, v: Bytes): seq<Event> {
    [At(0, OpCommit(map[a := Stored(v, None)], 0, [Put(a, v, None)])), At(0, OpPut(b, v, None)),
     At(0, OpSnapshot(false))]
  }

  lemma CommitRunTimely(a: string, b: string, v: Bytes)
    ensures Timely(CommitRun(a, b, v))
  {
    assert [Put(a, v, None)][0].key == a;
    assert Lists([Put(a, v, None)], map[a := Stored(v, None)]);
  }

  lemma CommitRunLogs(c: Config, a: string, b: string, v: Bytes)
    ensures var s1 := Run(c, FRESH, CommitRun(a, b, v)[..1]);
            s1.wal == [LogEntry(1, TxCommit([Put(a, v, None)]))] && s1.snapshot == [] && s1.version == 1
    ensures var s2 := Run(c, FRESH, CommitRun(a, b, v)[..2]);
            s2.wal == [LogEntry(1, TxCommit([Put(a, v, None)])), LogEntry(2, Put(b, v, None))] &&
            Find(s2.tree, b) == Some(DbRecord(v, None, 2))
    ensures var s2, s3 := Run(c, FRESH, CommitRun(a, b, v)[..2]), Run(c, FRESH, CommitRun(a, b, v));
            s3 == s2.(snapshot := SnapshotOf(s2.tree, 0))
  {
    var evs := CommitRun(a, b, v);
    RunSnoc(c, FRESH, evs, 0);
    RunSnoc(c, FRESH, evs, 1);
    RunSnoc(c, FRESH, evs, 2);
    assert evs[..0] == [] && evs[..3] == evs;
    ExecEffect(c, FRESH, evs[0]);
    ExecEffect(c, Run(c, FRESH, evs[..1]), evs[1]);
  }

  lemma StoredByOne(k: string, v: Bytes, now: nat)
    ensures EffectiveOf(TxCommit([Put(k, v, None)]), k, now) == Some(Stored(v, None))
  {
    assert [Put(k, v, None)][..0] == [];
  }

  /** A run in which it happens: a commit and nothing else. */
  lemma SpuriousAfterCommit(c: Config, a: string, b: string, v: Bytes, w: Write, now: nat)
    ensures var s := Run(c, FRESH, CommitRun(a, b, v)[..1]);
            var r := Rebuild(c, s.snapshot, s.wal, now);
            Timely(CommitRun(a, b, v)) && Conflicts(r.tree, map[a := w], r.maxVer)
  {
    var evs := CommitRun(a, b, v);
    CommitRunTimely(a, b, v);
    CommitRunLogs(c, a, b, v);
    StoredByOne(a, v, now);
    var s := Run(c, FRESH, evs[..1]);
    assert LastStoredByTx(s.wal, Load(c, s.snapshot, now).maxVer, now, a, 0);
    assert StoredByTx(s.wal, Load(c, s.snapshot, now).maxVer, now, a);
    SpuriousConflict(c, evs[..1], now, a, w);
  }

  /** Another: a commit and a put, after which a crash kept the log in place beside the new
      snapshot.  The last log entry is then not the transaction. */
  lemma SpuriousAfterSnapshot(c: Config, a: string, b: string, v: Bytes, w: Write, now: nat)
    requires a != b
    ensures var s := Run(c, FRESH, CommitRun(a, b, v));
            var r := Rebuild(c, s.snapshot, s.wal, now);
            |s.wal| == 2 && s.wal[1].cmd.Put? && Conflicts(r.tree, map[a := w], r.maxVer)
  {
    var evs := CommitRun(a, b, v);
    CommitRunLogs(c, a, b, v);
    StoredByOne(a, v, now);
    var s := Run(c, FRESH, evs);
    SnapshotCarries(c, s.tree, b, DbRecord(v, None, 2), now);
    LaterEntry(s.wal, Load(c, s.snapshot, now).maxVer, a, b, v, now);
    SpuriousConflict(c, evs, now, a, w);
  }

  lemma LaterEntry(wal: seq<LogEntry>, loaded: nat, a: string, b: string, v: Bytes, now: nat)
    requires a != b && loaded >= 2
    requires wal == [LogEntry(1, TxCommit([Put(a, v, None)])), LogEntry(2, Put(b, v, None))]
    ensures StoredByTx(wal, loaded, now, a)
  {
    StoredByOne(a, v, now);
    assert EffectiveOf(wal[1].cmd, a, now) == None;
    assert LastStoredByTx(wal, loaded, now, a, 0);
  }

  /** A snapshot restores at least the version of every record in it. */
  lemma SnapshotCarries(c: Config, t: Tree, k: string, r: DbRecord, now: nat)
    requires Find(t, k) == Some(r) && r.expiresAt == None
    ensures Load(c, SnapshotOf(t, 0), now).maxVer >= r.version
  {
    LoadMaxVer(c, SnapshotOf(t, 0), now);
    var ks := InOrder(LiveKeys(t, 0));
    assert k in LiveKeys(t, 0);
    assert k in ks;
    var i :| 0 <= i < |ks| && ks[i] == k;
    assert SnapshotOf(t, 0)[i].rec == r;
  }
}
