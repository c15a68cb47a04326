/**
 The secondary indexes after a restart: snapshot load and log replay file every record they
 insert, but do not take out the one it replaces.
 */
module RestartIndexes {
  import opened Prelude
  import opened Store
  import opened Indexes
  import opened Server
  import opened Restart
  import opened IndexRuns

  function FilingOf(b: Rebuilt): Filing {
    Filing(b.tree, b.indexes)
  }

  function LoadOps(recs: seq<SnapshotRecord>, now: nat): seq<BlindOp> {
    if recs == [] then []
    else
      var rec := recs[|recs| - 1];
      LoadOps(recs[..|recs| - 1], now) + if IsExpired(rec.rec.expiresAt, now) then [] else [Store(rec.key, rec.rec)]
  }

  function CommandOps(cmd: WalCommand, version: nat, now: nat): seq<BlindOp> {
    match cmd
    case Put(k, v, e) => if IsExpired(e, now) then [] else [Store(k, DbRecord(v, e, version))]
    case Delete(k) => [Drop(k)]
    case TxCommit(_) => []
  }

  function CommandsOps(cmds: seq<WalCommand>, version: nat, now: nat): seq<BlindOp> {
    if cmds == [] then []
    else CommandsOps(cmds[..|cmds| - 1], version, now) + CommandOps(cmds[|cmds| - 1], version, now)
  }

  function EntryOps(e: LogEntry, maxVer: nat, now: nat): seq<BlindOp> {
    if e.cmd.TxCommit? then CommandsOps(e.cmd.cmds, maxVer + 1, now) else CommandOps(e.cmd, maxVer, now)
  }

  /** The updates that replaying a log amounts to, transactions included. */
  function ReplayOps(c: Config, b: Rebuilt, log: seq<LogEntry>, now: nat): seq<BlindOp> {
    if log == [] then []
    else
      var before, e := Replay(c, b, log[..|log| - 1], now), log[|log| - 1];
      ReplayOps(c, b, log[..|log| - 1], now) +
      EntryOps(e, if e.id > 0 then Max(before.maxVer, e.id) else before.maxVer + 1, now)
  }

  function RebuildOps(c: Config, recs: seq<SnapshotRecord>, log: seq<LogEntry>, now: nat): seq<BlindOp> {
    LoadOps(recs, now) + ReplayOps(c, Load(c, recs, now), log, now)
  }

  lemma BlindOne(c: Config, f: Filing, op: BlindOp)
    ensures BlindRun(c, f, [op]) == BlindStep(c, f, op)
  {
    assert [op][..0] == [];
  }

  lemma {:induction false} LoadIsBlind(c: Config, recs: seq<SnapshotRecord>, now: nat)
    ensures FilingOf(Load(c, recs, now)) == BlindRun(c, FilingOf(NOTHING), LoadOps(recs, now))
  {
    if recs != [] {
      var before, rec := recs[..|recs| - 1], recs[|recs| - 1];
      LoadIsBlind(c, before, now);
      if IsExpired(rec.rec.expiresAt, now) {
        assert LoadOps(before, now) + [] == LoadOps(before, now);
      } else {
        BlindRunConcat(c, FilingOf(NOTHING), LoadOps(before, now), [Store(rec.key, rec.rec)]);
        BlindOne(c, FilingOf(Load(c, before, now)), Store(rec.key, rec.rec));
      }
    }
  }

  lemma CommandIsBlind(c: Config, b: Rebuilt, cmd: WalCommand, version: nat, now: nat)
    ensures FilingOf(ReplayOne(c, b, cmd, version, now)) == BlindRun(c, FilingOf(b), CommandOps(cmd, version, now))
  {
    match cmd
    case Put(k, v, e) => BlindOne(c, FilingOf(b), Store(k, DbRecord(v, e, version)));
    case Delete(k) => BlindOne(c, FilingOf(b), Drop(k));
    case TxCommit(_) =>
  }

  lemma {:induction false} CommandsAreBlind(c: Config, b: Rebuilt, cmds: seq<WalCommand>, version: nat, now: nat)
    ensures FilingOf(ReplayMany(c, b, cmds, version, now)) == BlindRun(c, FilingOf(b), CommandsOps(cmds, version, now))
  {
    if cmds != [] {
      var before, cmd := cmds[..|cmds| - 1], cmds[|cmds| - 1];
      CommandsAreBlind(c, b, before, version, now);
      CommandIsBlind(c, ReplayMany(c, b, before, version, now), cmd, version, now);
      BlindRunConcat(c, FilingOf(b), CommandsOps(before, version, now), CommandOps(cmd, version, now));
    }
  }

  lemma {:induction false} ReplayIsBlind(c: Config, b: Rebuilt, log: seq<LogEntry>, now: nat)
    ensures FilingOf(Replay(c, b, log, now)) == BlindRun(c, FilingOf(b), ReplayOps(c, b, log, now))
  {
    if log != [] {
      var before, e := log[..|log| - 1], log[|log| - 1];
      ReplayIsBlind(c, b, before, now);
      var b1 := Replay(c, b, before, now);
      var m := if e.id > 0 then Max(b1.maxVer, e.id) else b1.maxVer + 1;
      if e.cmd.TxCommit? {
        CommandsAreBlind(c, b1.(maxVer := m), e.cmd.cmds, m + 1, now);
      } else {
        CommandIsBlind(c, b1.(maxVer := m), e.cmd, m, now);
      }
      BlindRunConcat(c, FilingOf(b), ReplayOps(c, b, before, now), EntryOps(e, m, now));
    }
  }

  lemma RebuildIsBlind(c: Config, recs: seq<SnapshotRecord>, log: seq<LogEntry>, now: nat)
    ensures FilingOf(Rebuild(c, recs, log, now)) == BlindRun(c, FilingOf(NOTHING), RebuildOps(c, recs, log, now))
  {
    LoadIsBlind(c, recs, now);
    ReplayIsBlind(c, Load(c, recs, now), log, now);
    BlindRunConcat(c, FilingOf(NOTHING), LoadOps(recs, now), ReplayOps(c, Load(c, recs, now), log, now));
  }

  /** Whatever the files hold, no rebuilt record is missing from its index sets. */
  lemma RebuildComplete(c: Config, recs: seq<SnapshotRecord>, log: seq<LogEntry>, now: nat)
    ensures Complete(c, Rebuild(c, recs, log, now).tree, Rebuild(c, recs, log, now).indexes)
  {
    RebuildIsBlind(c, recs, log, now);
    BlindComplete(c, FilingOf(NOTHING), RebuildOps(c, recs, log, now));
  }

  /** Main theorem: the rebuilt indexes are exact if and only if no record that is loaded or
      replayed replaces one with an index key that it lacks and that the key never gets back. */
  lemma RebuildExact(c: Config, recs: seq<SnapshotRecord>, log: seq<LogEntry>, now: nat)
    ensures Exact(c, Rebuild(c, recs, log, now).tree, Rebuild(c, recs, log, now).indexes) <==>
            NothingStale(c, FilingOf(NOTHING), RebuildOps(c, recs, log, now))
  {
    RebuildIsBlind(c, recs, log, now);
    BlindExact(c, FilingOf(NOTHING), RebuildOps(c, recs, log, now));
  }

  lemma TwoPutsRun(c: Config, k: string, v: Bytes, v': Bytes)
    ensures var s := Run(c, FRESH, [At(0, OpPut(k, v, None)), At(0, OpPut(k, v', None))]);
            s.snapshot == [] && s.wal == [LogEntry(1, Put(k, v, None)), LogEntry(2, Put(k, v', None))] &&
            k in s.tree && s.tree[k].value == v'
  {
    var evs := [At(0, OpPut(k, v, None)), At(0, OpPut(k, v', None))];
    RunSnoc(c, FRESH, evs, 0);
    RunSnoc(c, FRESH, evs, 1);
    assert evs[..0] == [] && evs[..2] == evs;
  }

  lemma ReplayTwoPuts(c: Config, k: string, v: Bytes, v': Bytes, now: nat)
    ensures var log := [LogEntry(1, Put(k, v, None)), LogEntry(2, Put(k, v', None))];
            FilingOf(Rebuild(c, [], log, now)) ==
            BlindStep(c, BlindStep(c, FilingOf(NOTHING), Store(k, DbRecord(v, None, 1))),
                      Store(k, DbRecord(v', None, 2)))
  {
    var log := [LogEntry(1, Put(k, v, None)), LogEntry(2, Put(k, v', None))];
    assert log[..1][..0] == [] && log[..1][0] == log[0];
    assert Load(c, [], now) == NOTHING && Replay(c, NOTHING, log[..1][..0], now) == NOTHING;
    assert Replay(c, NOTHING, log[..1], now) == ReplayEntry(c, NOTHING, log[0], now);
  }

  /** An ordinary run after which a restart leaves a stale entry: two puts of one key.  Before
      the restart the indexes were exact. */
  lemma RestartLeavesStale(c: Config, k: string, v: Bytes, v': Bytes, ik: string, now: nat)
    requires ik in c.extract(k, v) && ik !in c.extract(k, v')
    ensures var evs := [At(0, OpPut(k, v, None)), At(0, OpPut(k, v', None))];
            var s := Run(c, FRESH, evs);
            var b := Rebuild(c, s.snapshot, s.wal, now);
            && Timely(evs) && NeverStale(c, evs)
            && InIndex(b.indexes, ik, k) && !Files(c, b.tree, ik, k)
  {
    TwoPutsRun(c, k, v, v');
    ReplayTwoPuts(c, k, v, v', now);
    var f := BlindStep(c, FilingOf(NOTHING), Store(k, DbRecord(v, None, 1)));
    BlindStepAt(c, FilingOf(NOTHING), Store(k, DbRecord(v, None, 1)), ik, k);
    OverwriteLeavesStale(c, f, k, DbRecord(v', None, 2), ik);
  }
}
