/**
 Restart: loading the snapshot file and replaying the log over it.
 */
module Restart {
  import opened Prelude
  import opened Ordered
  import opened Store
  import opened Indexes
  import opened Wal
  import opened Server
  import opened History

  /** What `new` has built so far. */
  datatype Rebuilt = Rebuilt(tree: Tree, indexes: Indexes, maxVer: nat)

  const NOTHING := Rebuilt(map[], map[], 0)

  function Max(a: nat, b: nat): nat {
    if a >= b then a else b
  }

  function Insert(c: Config, b: Rebuilt, k: string, r: DbRecord): Rebuilt {
    b.(tree := b.tree[k := r], indexes := AddKeys(b.indexes, c.extract(k, r.value), k))
  }

  function Remove(c: Config, b: Rebuilt, k: string): Rebuilt {
    b.(tree := b.tree - {k},
       indexes := if k in b.tree then RemoveKeys(b.indexes, c.extract(k, b.tree[k].value), k) else b.indexes)
  }

  function LoadOne(c: Config, b: Rebuilt, rec: SnapshotRecord, now: nat): Rebuilt {
    if IsExpired(rec.rec.expiresAt, now) then b
    else Insert(c, b, rec.key, rec.rec).(maxVer := Max(b.maxVer, rec.rec.version))
  }

  function Load(c: Config, recs: seq<SnapshotRecord>, now: nat): Rebuilt {
    if recs == [] then NOTHING else LoadOne(c, Load(c, recs[..|recs| - 1], now), recs[|recs| - 1], now)
  }

  /** A Put that has expired is skipped: whatever the key held before stays. */
  function ReplayOne(c: Config, b: Rebuilt, cmd: WalCommand, version: nat, now: nat): Rebuilt {
    match cmd
    case Put(k, v, e) => if IsExpired(e, now) then b else Insert(c, b, k, DbRecord(v, e, version))
    case Delete(k) => Remove(c, b, k)
    case TxCommit(_) => b
  }

  function ReplayMany(c: Config, b: Rebuilt, cmds: seq<WalCommand>, version: nat, now: nat): Rebuilt {
    if cmds == [] then b
    else ReplayOne(c, ReplayMany(c, b, cmds[..|cmds| - 1], version, now), cmds[|cmds| - 1], version, now)
  }

  /** Records of a transaction are stamped with one more than the highest version so far. */
  function ReplayEntry(c: Config, b: Rebuilt, e: LogEntry, now: nat): Rebuilt {
    var b' := b.(maxVer := if e.id > 0 then Max(b.maxVer, e.id) else b.maxVer + 1);
    if e.cmd.TxCommit? then ReplayMany(c, b', e.cmd.cmds, b'.maxVer + 1, now)
    else ReplayOne(c, b', e.cmd, b'.maxVer, now)
  }

  function Replay(c: Config, b: Rebuilt, log: seq<LogEntry>, now: nat): Rebuilt {
    if log == [] then b else ReplayEntry(c, Replay(c, b, log[..|log| - 1], now), log[|log| - 1], now)
  }

  function Rebuild(c: Config, recs: seq<SnapshotRecord>, log: seq<LogEntry>, now: nat): Rebuilt {
    Replay(c, Load(c, recs, now), log, now)
  }

  /** The constructor's loops over the snapshot's records and the log file's lines. */
  method RebuildServer(c: Config, codec: Codec, recs: seq<SnapshotRecord>, walFile: string, now: nat)
      returns (b: Rebuilt)
    ensures b == Rebuild(c, recs, ReadAll(codec, walFile), now)
  {
    b := NOTHING;
    for i := 0 to |recs|
      invariant b == Load(c, recs[..i], now)
    {
      assert recs[..i + 1][..i] == recs[..i];
      if !IsExpired(recs[i].rec.expiresAt, now) {
        b := Insert(c, b, recs[i].key, recs[i].rec).(maxVer := Max(b.maxVer, recs[i].rec.version));
      }
    }
    assert recs[..|recs|] == recs;
    var commands := ReadAllCommands(codec, walFile);
    b := ReplayCommands(c, b, commands, now);
  }

  method ReplayCommands(c: Config, start: Rebuilt, commands: seq<LogEntry>, now: nat) returns (b: Rebuilt)
    ensures b == Replay(c, start, commands, now)
  {
    b := start;
    for i := 0 to |commands|
      invariant b == Replay(c, start, commands[..i], now)
    {
      assert commands[..i + 1][..i] == commands[..i];
      var e := commands[i];
      var maxVer := if e.id > 0 then Max(b.maxVer, e.id) else b.maxVer + 1;
      b := b.(maxVer := maxVer);
      match e.cmd {
        case Put(k, v, exp) =>
          if !IsExpired(exp, now) {
            b := Insert(c, b, k, DbRecord(v, exp, maxVer));
          }
        case Delete(k) =>
          b := Remove(c, b, k);
        case TxCommit(cmds) =>
          b := ReplayTransaction(c, b, cmds, maxVer + 1, now);
      }
    }
    assert commands[..|commands|] == commands;
  }

  method ReplayTransaction(c: Config, start: Rebuilt, cmds: seq<WalCommand>, version: nat, now: nat)
      returns (b: Rebuilt)
    ensures b == ReplayMany(c, start, cmds, version, now)
  {
    b := start;
    for i := 0 to |cmds|
      invariant b == ReplayMany(c, start, cmds[..i], version, now)
    {
      assert cmds[..i + 1][..i] == cmds[..i];
      b := ReplayOne(c, b, cmds[i], version, now);
    }
    assert cmds[..|cmds|] == cmds;
  }

  // --- What replay does to one key -----------------------------------------------------------------

  function Shown(r: Option<DbRecord>): Option<Seen> {
    if r.Some? then Some(Seen(r.value.value, r.value.expiresAt)) else None
  }

  function ShownWrite(w: Write): Option<Seen> {
    if w.Stored? then Some(Seen(w.value, w.expiresAt)) else None
  }

  /** A write that replay at `now` does not skip. */
  function Effective(w: Option<Write>, now: nat): Option<Write> {
    if w.Some? && w.value.Stored? && IsExpired(w.value.expiresAt, now) then None else w
  }

  function EffectiveAll(cs: seq<WalCommand>, k: string, now: nat): Option<Write> {
    if cs == [] then None
    else
      var last := Effective(WriteOne(cs[|cs| - 1], k), now);
      if last.Some? then last else EffectiveAll(cs[..|cs| - 1], k, now)
  }

  function EffectiveOf(c: WalCommand, k: string, now: nat): Option<Write> {
    if c.TxCommit? then EffectiveAll(c.cmds, k, now) else Effective(WriteOne(c, k), now)
  }

  /** The last logged write of a key that replay at `now` carries out. */
  function LastEffective(log: seq<LogEntry>, k: string, now: nat): Option<Write> {
    if log == [] then None
    else
      var last := EffectiveOf(log[|log| - 1].cmd, k, now);
      if last.Some? then last else LastEffective(log[..|log| - 1], k, now)
  }

  lemma {:induction false} ReplayManyAt(c: Config, b: Rebuilt, cs: seq<WalCommand>, version: nat, now: nat, k: string)
    ensures var b' := ReplayMany(c, b, cs, version, now);
            b'.maxVer == b.maxVer &&
            Find(b'.tree, k) ==
            match EffectiveAll(cs, k, now) case None => Find(b.tree, k) case Some(w) => Written(w, version)
  {
    if cs != [] {
      ReplayManyAt(c, b, cs[..|cs| - 1], version, now, k);
    }
  }

  lemma ReplayEntryAt(c: Config, b: Rebuilt, e: LogEntry, now: nat, k: string)
    ensures Shown(Find(ReplayEntry(c, b, e, now).tree, k)) ==
            match EffectiveOf(e.cmd, k, now) case None => Shown(Find(b.tree, k)) case Some(w) => ShownWrite(w)
  {
    if e.cmd.TxCommit? {
      var b' := b.(maxVer := if e.id > 0 then Max(b.maxVer, e.id) else b.maxVer + 1);
      ReplayManyAt(c, b', e.cmd.cmds, b'.maxVer + 1, now, k);
    }
  }

  lemma {:induction false} ReplayAt(c: Config, b: Rebuilt, log: seq<LogEntry>, now: nat, k: string)
    ensures Shown(Find(Replay(c, b, log, now).tree, k)) ==
            match LastEffective(log, k, now) case None => Shown(Find(b.tree, k)) case Some(w) => ShownWrite(w)
  {
    if log != [] {
      ReplayAt(c, b, log[..|log| - 1], now, k);
      ReplayEntryAt(c, Replay(c, b, log[..|log| - 1], now), log[|log| - 1], now, k);
    }
  }

  lemma {:induction false} EffectiveAllUnexpired(cs: seq<WalCommand>, k: string, now: nat)
    ensures var w := EffectiveAll(cs, k, now); w.Some? && w.value.Stored? ==> !IsExpired(w.value.expiresAt, now)
  {
    if cs != [] {
      EffectiveAllUnexpired(cs[..|cs| - 1], k, now);
    }
  }

  lemma {:induction false} LastEffectiveUnexpired(log: seq<LogEntry>, k: string, now: nat)
    ensures var w := LastEffective(log, k, now); w.Some? && w.value.Stored? ==> !IsExpired(w.value.expiresAt, now)
  {
    if log != [] {
      LastEffectiveUnexpired(log[..|log| - 1], k, now);
      if log[|log| - 1].cmd.TxCommit? {
        EffectiveAllUnexpired(log[|log| - 1].cmd.cmds, k, now);
      }
    }
  }

  /** The record a snapshot holds for a key. */
  function InSnapshot(recs: seq<SnapshotRecord>, k: string): Option<DbRecord> {
    if recs == [] then None
    else if recs[|recs| - 1].key == k then Some(recs[|recs| - 1].rec)
    else InSnapshot(recs[..|recs| - 1], k)
  }

  ghost predicate DistinctRecords(recs: seq<SnapshotRecord>) {
    forall i, j :: 0 <= i < j < |recs| ==> recs[i].key != recs[j].key
  }

  lemma {:induction false} InSnapshotAt(recs: seq<SnapshotRecord>, i: nat)
    requires DistinctRecords(recs) && i < |recs|
    ensures InSnapshot(recs, recs[i].key) == Some(recs[i].rec)
  {
    if i < |recs| - 1 {
      InSnapshotAt(recs[..|recs| - 1], i);
    }
  }

  lemma {:induction false} InSnapshotAbsent(recs: seq<SnapshotRecord>, k: string)
    requires forall i :: 0 <= i < |recs| ==> recs[i].key != k
    ensures InSnapshot(recs, k) == None
  {
    if recs != [] {
      InSnapshotAbsent(recs[..|recs| - 1], k);
    }
  }

  lemma {:induction false} LoadAt(c: Config, recs: seq<SnapshotRecord>, now: nat, k: string)
    requires DistinctRecords(recs)
    ensures Find(Load(c, recs, now).tree, k) ==
            if InSnapshot(recs, k).Some? && !IsExpired(InSnapshot(recs, k).value.expiresAt, now)
            then InSnapshot(recs, k) else None
  {
    if recs != [] {
      var last := |recs| - 1;
      LoadAt(c, recs[..last], now, k);
      if recs[last].key == k {
        InSnapshotAbsent(recs[..last], k);
      }
    }
  }

  /** A snapshot holds exactly the records that were live when it was taken. */
  lemma SnapshotHolds(t: Tree, now: nat, k: string)
    ensures DistinctRecords(SnapshotOf(t, now))
    ensures InSnapshot(SnapshotOf(t, now), k) == if Visible(Find(t, k), now).Some? then Find(t, k) else None
  {
    var ks := InOrder(LiveKeys(t, now));
    var recs := SnapshotOf(t, now);
    SortedDistinct(ks);
    if k in LiveKeys(t, now) {
      assert k in ks;
      var i :| 0 <= i < |ks| && ks[i] == k;
      InSnapshotAt(recs, i);
    } else {
      assert forall i :: 0 <= i < |ks| ==> ks[i] in LiveKeys(t, now);
      InSnapshotAbsent(recs, k);
    }
  }

  // --- What the files say about one key, and what clients see ------------------------------------------

  /** The record that snapshot and log together promise for a key: its last logged write or,
      failing that, what the snapshot holds. */
  function Promised(s: State, k: string): Option<DbRecord> {
    match LastWrite(s.wal, k)
    case None => InSnapshot(s.snapshot, k)
    case Some((id, w)) => Written(w, id)
  }

  /** From now on, clients see what the files promise. */
  ghost predicate Durable(s: State, now: nat) {
    && DistinctRecords(s.snapshot)
    && (forall k, later :: later >= now ==> Visible(Find(s.tree, k), later) == Visible(Promised(s, k), later))
  }

  lemma ExecDurable(c: Config, s: State, now: nat, ev: Event)
    requires Durable(s, now) && now <= ev.now
    ensures Durable(Exec(c, s, ev), ev.now)
  {
    var s' := Exec(c, s, ev);
    ExecEffect(c, s, ev);
    if ev.op.OpSnapshot? {
      SnapshotHolds(s.tree, ev.now, []);
    }
    forall k, later | later >= ev.now ensures Visible(Find(s'.tree, k), later) == Visible(Promised(s', k), later) {
      assert Visible(Find(s.tree, k), later) == Visible(Promised(s, k), later);
      if ev.op.OpSnapshot? {
        SnapshotHolds(s.tree, ev.now, k);
      } else if Announces(s, ev).Some? {
        var e := LogEntry(s.version + 1, Announces(s, ev).value);
        ApplyAt(s.tree, e, k);
        LastWriteSnoc(s.wal, e, k);
      } else {
        assert Find(s'.tree, k) == Find(s.tree, k) ||
               (k !in s'.tree && k in s.tree && IsExpired(s.tree[k].expiresAt, ev.now));
      }
    }
  }

  lemma {:induction false} RunDurable(c: Config, evs: seq<Event>)
    requires Timely(evs)
    ensures Durable(Run(c, FRESH, evs), Clock(evs))
  {
    if evs != [] {
      TimelyPrefix(evs);
      RunDurable(c, evs[..|evs| - 1]);
      ExecDurable(c, Run(c, FRESH, evs[..|evs| - 1]), Clock(evs[..|evs| - 1]), evs[|evs| - 1]);
    }
  }

  // --- Restart and the live server -------------------------------------------------------------------------

  /** What replay at `now` makes of a key. */
  function Recovered(s: State, k: string, now: nat): Option<Seen> {
    match LastEffective(s.wal, k, now)
    case None => Visible(InSnapshot(s.snapshot, k), now)
    case Some(w) => ShownWrite(w)
  }

  lemma RebuildAt(c: Config, s: State, now: nat, k: string)
    requires DistinctRecords(s.snapshot)
    ensures Visible(Find(Rebuild(c, s.snapshot, s.wal, now).tree, k), now) == Recovered(s, k, now)
  {
    LoadAt(c, s.snapshot, now, k);
    ReplayAt(c, Load(c, s.snapshot, now), s.wal, now, k);
    LastEffectiveUnexpired(s.wal, k, now);
  }

  lemma {:induction false} EffectiveVsLastAll(cs: seq<WalCommand>, k: string, now: nat)
    ensures Effective(WriteAll(cs, k), now).Some? ==> EffectiveAll(cs, k, now) == WriteAll(cs, k)
    ensures WriteAll(cs, k).None? ==> EffectiveAll(cs, k, now).None?
  {
    if cs != [] {
      EffectiveVsLastAll(cs[..|cs| - 1], k, now);
    }
  }

  /** Unless a key's last logged write is an expired Put, replay ends with that write. */
  lemma {:induction false} EffectiveVsLast(log: seq<LogEntry>, k: string, now: nat)
    ensures match LastWrite(log, k)
            case None => LastEffective(log, k, now) == None
            case Some((_, w)) => Effective(Some(w), now).Some? ==> LastEffective(log, k, now) == Some(w)
  {
    if log != [] {
      EffectiveVsLast(log[..|log| - 1], k, now);
      if log[|log| - 1].cmd.TxCommit? {
        EffectiveVsLastAll(log[|log| - 1].cmd.cmds, k, now);
      }
    }
  }

  /** A key whose last logged write is a Put that has expired, while something older survives
      replay: restart brings the older value back. */
  predicate Resurrects(s: State, k: string, now: nat) {
    var last := LastWrite(s.wal, k);
    && last.Some? && last.value.1.Stored? && IsExpired(last.value.1.expiresAt, now)
    && Recovered(s, k, now).Some?
  }

  lemma DurableAgrees(c: Config, s: State, before: nat, now: nat, k: string)
    requires Durable(s, before) && before <= now
    ensures Visible(Find(Rebuild(c, s.snapshot, s.wal, now).tree, k), now) == Visible(Find(s.tree, k), now)
            <==> !Resurrects(s, k, now)
  {
    assert Visible(Find(s.tree, k), now) == Visible(Promised(s, k), now);
    RebuildAt(c, s, now, k);
    EffectiveVsLast(s.wal, k, now);
  }

  /** Main theorem: after any run, with snapshots anywhere in it (even one whose truncation a
      crash prevented), restart shows for a key what the live server would show, exactly unless
      it resurrects the key.  In particular it does for every key whose last logged write is a
      Delete or an unexpired Put, or that was not written since the snapshot. */
  lemma RestartAgrees(c: Config, evs: seq<Event>, now: nat, k: string)
    requires Timely(evs) && now >= Clock(evs)
    ensures var s := Run(c, FRESH, evs);
            Visible(Find(Rebuild(c, s.snapshot, s.wal, now).tree, k), now) == Visible(Find(s.tree, k), now)
            <==> !Resurrects(s, k, now)
  {
    RunDurable(c, evs);
    DurableAgrees(c, Run(c, FRESH, evs), Clock(evs), now, k);
  }

  ghost predicate NoTtl(log: seq<LogEntry>) {
    forall k :: LastWrite(log, k).Some? && LastWrite(log, k).value.1.Stored? ==>
        LastWrite(log, k).value.1.expiresAt == None
  }

  /** Without TTLs in the log, restart loses and invents nothing. */
  lemma RestartWithoutTtl(c: Config, evs: seq<Event>, now: nat)
    requires Timely(evs) && now >= Clock(evs) && NoTtl(Run(c, FRESH, evs).wal)
    ensures var s := Run(c, FRESH, evs); View(Rebuild(c, s.snapshot, s.wal, now).tree, now) == View(s.tree, now)
  {
    var s := Run(c, FRESH, evs);
    forall k ensures Visible(Find(Rebuild(c, s.snapshot, s.wal, now).tree, k), now) == Visible(Find(s.tree, k), now) {
      RestartAgrees(c, evs, now, k);
      assert LastWrite(s.wal, k).Some? && LastWrite(s.wal, k).value.1.Stored? ==>
          LastWrite(s.wal, k).value.1.expiresAt == None;
    }
    ViewsEqual(Rebuild(c, s.snapshot, s.wal, now).tree, s.tree, now);
  }

  /** A run that does resurrect a value: overwrite with a TTL, let it expire, restart. */
  lemma RestartResurrects(c: Config, k: string, v: Bytes, v': Bytes)
    ensures var evs := [At(0, OpPut(k, v, None)), At(0, OpPut(k, v', Some(5)))];
            var s := Run(c, FRESH, evs);
            Timely(evs) && Visible(Find(s.tree, k), 9) == None &&
            Visible(Find(Rebuild(c, s.snapshot, s.wal, 9).tree, k), 9) == Some(Seen(v, None))
  {
    var first, second := At(0, OpPut(k, v, None)), At(0, OpPut(k, v', Some(5)));
    var evs := [first, second];
    RunSnoc(c, FRESH, evs, 0);
    RunSnoc(c, FRESH, evs, 1);
    assert evs[..0] == [] && evs[..2] == evs;
    var s := Run(c, FRESH, evs);
    assert s.wal == [LogEntry(1, Put(k, v, None)), LogEntry(2, Put(k, v', Some(5)))];
    assert s.wal[..1] == [LogEntry(1, Put(k, v, None))] && s.wal[..1][..0] == [];
    assert LastEffective(s.wal[..1], k, 9) == Some(Stored(v, None));
    assert LastEffective(s.wal, k, 9) == LastEffective(s.wal[..1], k, 9);
    RebuildAt(c, s, 9, k);
  }

  // --- Crashes -------------------------------------------------------------------------------------------------

  /** After a crash at any character of the log file, restart replays a prefix of the log: each
      transaction, being one entry, is replayed whole or not at all. */
  lemma CrashRestart(c: Config, codec: Codec, recs: seq<SnapshotRecord>, log: seq<LogEntry>, n: nat, now: nat)
    requires Faithful(codec) && n <= |FileOf(codec, log)|
    ensures Rebuild(c, recs, ReadAll(codec, FileOf(codec, log)[..n]), now) ==
            Rebuild(c, recs, log[..Survivors(codec, log, n)], now)
  {
    CrashPrefix(codec, log, n);
  }

  /** A crash while a step appends its record: restart recovers the state before the step, or,
      once the record is complete but for its newline, the state after it. */
  lemma CrashMidStep(c: Config, codec: Codec, s: State, ev: Event, n: nat, now: nat)
    requires Faithful(codec) && Announces(s, ev).Some?
    requires |FileOf(codec, s.wal)| <= n <= |FileOf(codec, Exec(c, s, ev).wal)|
    ensures var s' := Exec(c, s, ev);
            var complete := n >= |FileOf(codec, s'.wal)| - 1;
            Rebuild(c, s'.snapshot, ReadAll(codec, FileOf(codec, s'.wal)[..n]), now) ==
            if complete then Rebuild(c, s'.snapshot, s'.wal, now) else Rebuild(c, s.snapshot, s.wal, now)
  {
    ExecEffect(c, s, ev);
    var e := LogEntry(s.version + 1, Announces(s, ev).value);
    var whole, line := FileOf(codec, s.wal), Line(codec, e);
    FileSnoc(codec, s.wal, e);
    var m := n - |whole|;
    assert (whole + (line + "\n"))[..n] == whole + (line + "\n")[..m];
    ReadThen(codec, s.wal, (line + "\n")[..m]);
    ReadCutLine(codec, e, m);
    assert s.wal + [] == s.wal;
  }

  /** A server crashes after all of a record but its newline reached the disk, restarts, shows
      the record, stores another one and restarts again: both are gone. */
  lemma RestartLosesBoth(c: Config, codec: Codec, k: string, v: Bytes, k': string, v': Bytes, now: nat)
    requires Faithful(codec)
    ensures var first, second := LogEntry(1, Put(k, v, None)), LogEntry(2, Put(k', v', None));
            var torn := Line(codec, first);
            && torn + "\n" == FileOf(codec, [first])
            && Visible(Find(Rebuild(c, [], ReadAll(codec, torn), now).tree, k), now) == Some(Seen(v, None))
            && Rebuild(c, [], ReadAll(codec, torn + (Line(codec, second) + "\n")), now).tree == map[]
  {
    var first, second := LogEntry(1, Put(k, v, None)), LogEntry(2, Put(k', v', None));
    AppendDestroys(codec, first, second);
    OneLineFile(codec, first);
    ReplayOnePut(c, k, v, now);
  }

  lemma ReplayOnePut(c: Config, k: string, v: Bytes, now: nat)
    ensures Find(Rebuild(c, [], [LogEntry(1, Put(k, v, None))], now).tree, k) == Some(DbRecord(v, None, 1))
  {
    var e := LogEntry(1, Put(k, v, None));
    var log := [e];
    assert log[..|log| - 1] == [] && Load(c, [], now) == NOTHING;
    assert Replay(c, NOTHING, log, now) == ReplayEntry(c, NOTHING, e, now);
  }

  /** Replaying a transaction carries out its whole write set, less the Puts that have expired,
      and touches nothing else; the order in which the write set was listed plays no part. */
  lemma ReplayedTransaction(c: Config, b: Rebuilt, id: nat, cs: seq<WalCommand>, ws: WriteSet, now: nat, k: string)
    requires Lists(cs, ws)
    ensures var r := Find(ReplayEntry(c, b, LogEntry(id, TxCommit(cs)), now).tree, k);
            var version := (if id > 0 then Max(b.maxVer, id) else b.maxVer + 1) + 1;
            if k in ws && Effective(Some(ws[k]), now).Some? then r == Written(ws[k], version) else r == Find(b.tree, k)
  {
    var b' := b.(maxVer := if id > 0 then Max(b.maxVer, id) else b.maxVer + 1);
    ReplayManyAt(c, b', cs, b'.maxVer + 1, now, k);
    ListedEffective(cs, ws, k, now);
  }

  lemma {:induction false} EffectiveAllUnique(cs: seq<WalCommand>, k: string, now: nat, i: nat)
    requires i < |cs|
    requires forall j :: 0 <= j < |cs| && j != i ==> WriteOne(cs[j], k) == None
    ensures EffectiveAll(cs, k, now) == Effective(WriteOne(cs[i], k), now)
  {
    if i < |cs| - 1 {
      EffectiveAllUnique(cs[..|cs| - 1], k, now, i);
    } else {
      EffectiveAllAbsent(cs[..|cs| - 1], k, now);
    }
  }

  lemma {:induction false} EffectiveAllAbsent(cs: seq<WalCommand>, k: string, now: nat)
    requires forall i :: 0 <= i < |cs| ==> WriteOne(cs[i], k) == None
    ensures EffectiveAll(cs, k, now) == None
  {
    if cs != [] {
      EffectiveAllAbsent(cs[..|cs| - 1], k, now);
    }
  }

  lemma ListedEffective(cs: seq<WalCommand>, ws: WriteSet, k: string, now: nat)
    requires Lists(cs, ws)
    ensures EffectiveAll(cs, k, now) == if k in ws then Effective(Some(ws[k]), now) else None
  {
    if k in ws {
      var i :| 0 <= i < |cs| && cs[i].key == k;
      EffectiveAllUnique(cs, k, now, i);
    } else {
      EffectiveAllAbsent(cs, k, now);
    }
  }
}
