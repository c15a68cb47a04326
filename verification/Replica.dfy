/**
 Replication, the follower's side: what it does with the payloads it receives, and what its data
 has to do with the leader's log.
 */
module Replica {
  import opened Prelude
  import opened Store
  import opened Indexes
  import opened Server
  import opened History
  import opened IndexRuns
  import opened KindServer

  /** A log record carries its command, or nothing when its payload does not decode. */
  datatype Payload =
    | Snapshot(records: seq<Record>, maxTxId: nat)
    | WalRecord(txId: nat, cmd: Option<WalCommand>)

  // --- The follower ----------------------------------------------------------------------------

  /** `apply_command`: the writes of a record, logged under its own id. */
  function ApplyRecord(c: Config, s: State, e: LogEntry): State {
    var s' := if e.cmd.TxCommit? then WriteSteps(c, s, e.id, e.cmd.cmds) else WriteStep(c, s, e.id, e.cmd);
    s'.(wal := s.wal + [e], version := e.id)
  }

  /** A snapshot record is inserted and indexed; nothing is unindexed or cleared. */
  function LoadRecord(c: Config, s: State, r: Record, maxTxId: nat): State {
    s.(tree := s.tree[r.key := DbRecord(r.value, r.expiresAt, maxTxId)],
       indexes := AddKeys(s.indexes, c.extract(r.key, r.value), r.key))
  }

  function LoadRecords(c: Config, s: State, rs: seq<Record>, maxTxId: nat): State {
    if rs == [] then s else LoadRecord(c, LoadRecords(c, s, rs[..|rs| - 1], maxTxId), rs[|rs| - 1], maxTxId)
  }

  datatype Reaction = Ignore | Disconnect | Accept

  /** Duplicates are ignored; a gap ends the stream, unless the follower is at version 0. */
  function React(version: nat, txId: nat): Reaction {
    if txId <= version then Ignore
    else if txId != version + 1 && version != 0 then Disconnect
    else Accept
  }

  function Receive(c: Config, s: State, p: Payload): State {
    match p
    case Snapshot(rs, maxTxId) => LoadRecords(c, s, rs, maxTxId).(version := maxTxId)
    case WalRecord(txId, cmd) =>
      if React(s.version, txId).Accept? && cmd.Some? then ApplyRecord(c, s, LogEntry(txId, cmd.value)) else s
  }

  predicate Ends(s: State, p: Payload) {
    p.WalRecord? && React(s.version, p.txId).Disconnect?
  }

  /** The payloads of one connection, up to the one that ends it. */
  function ReceiveAll(c: Config, s: State, ps: seq<Payload>): State
    decreases |ps|
  {
    if ps == [] || Ends(s, ps[0]) then s else ReceiveAll(c, Receive(c, s, ps[0]), ps[1..])
  }

  lemma {:induction false} WriteStepsWal(c: Config, s: State, ver: nat, cmds: seq<WalCommand>, wal: seq<LogEntry>)
    ensures WriteSteps(c, s.(wal := wal), ver, cmds) == WriteSteps(c, s, ver, cmds).(wal := wal)
  {
    if cmds != [] {
      WriteStepsWal(c, s, ver, cmds[..|cmds| - 1], wal);
    }
  }

  /** Applies a replicated command to the server object. */
  method ApplyCommand(server: KindServer, txId: nat, cmd: WalCommand)
    requires server.Valid()
    modifies server, server.cache, server.wal
    ensures server.Valid()
    ensures server.Value() == ApplyRecord(server.config, old(server.Value()), LogEntry(txId, cmd))
  {
    if cmd.TxCommit? {
      WriteStepsWal(server.config, server.Value(), txId, cmd.cmds, server.wal.entries + [LogEntry(txId, cmd)]);
      server.wal.Append(txId, cmd);
      server.ApplyWrites(cmd.cmds, txId);
    } else {
      server.ApplyWrite(cmd, txId);
      server.wal.Append(txId, cmd);
    }
    server.globalVersion := txId;
  }

  method LoadChunk(server: KindServer, records: seq<Record>, maxTxId: nat)
    requires server.Valid()
    modifies server`tree, server`indexes, server`globalVersion
    ensures server.Valid()
    ensures server.Value() == Receive(server.config, old(server.Value()), Snapshot(records, maxTxId))
  {
    for i := 0 to |records|
      invariant server.Valid()
      invariant server.Value() == LoadRecords(server.config, old(server.Value()), records[..i], maxTxId)
    {
      assert records[..i + 1][..i] == records[..i];
      var r := records[i];
      server.tree := server.tree[r.key := DbRecord(r.value, r.expiresAt, maxTxId)];
      server.IndexRecord(r.key, r.value);
    }
    assert records[..|records|] == records;
    server.globalVersion := maxTxId;
  }

  /** The loop over one connection's stream. */
  method HandleStream(server: KindServer, stream: seq<Payload>)
    requires server.Valid()
    modifies server, server.cache, server.wal
    ensures server.Valid()
    ensures server.Value() == ReceiveAll(server.config, old(server.Value()), stream)
  {
    var i := 0;
    while i < |stream|
      invariant 0 <= i <= |stream| && server.Valid()
      invariant ReceiveAll(server.config, old(server.Value()), stream) ==
                ReceiveAll(server.config, server.Value(), stream[i..])
    {
      var p := stream[i];
      assert stream[i..][0] == p && stream[i..][1..] == stream[i + 1..];
      match p {
        case Snapshot(records, maxTxId) =>
          LoadChunk(server, records, maxTxId);
        case WalRecord(txId, cmd) =>
          var reaction := React(server.globalVersion, txId);
          if reaction.Disconnect? {
            return;
          }
          if reaction.Accept? && cmd.Some? {
            ApplyCommand(server, txId, cmd.value);
          }
      }
      i := i + 1;
    }
  }

  // --- What each payload does, in terms of ids and versions ------------------------------------------

  /** A record that skips ids a follower at a non-zero version has not seen. */
  predicate Gap(s: State, p: Payload) {
    p.WalRecord? && s.version != 0 && p.txId > s.version + 1
  }

  /** A known id changes nothing, nor does a payload that does not decode; a gap changes nothing
      either; the next id, or any at version 0, is applied. */
  lemma ReceiveExact(c: Config, s: State, txId: nat, cmd: Option<WalCommand>)
    ensures txId <= s.version || cmd.None? || Gap(s, WalRecord(txId, cmd)) ==> Receive(c, s, WalRecord(txId, cmd)) == s
    ensures cmd.Some? && (txId == s.version + 1 || (s.version == 0 && txId > 0)) ==>
              Receive(c, s, WalRecord(txId, cmd)) == ApplyRecord(c, s, LogEntry(txId, cmd.value))
  {
  }

  /** A gap, and nothing else, ends a connection. */
  lemma GapDisconnects(c: Config, f: Follower, step: Step)
    requires f.connected && step.action.Arrives?
    ensures Do(c, f, step).connected <==> !Gap(f.state, step.action.payload)
    ensures Gap(f.state, step.action.payload) ==> Do(c, f, step).state == f.state
  {
  }

  lemma StreamStep(c: Config, s: State, p: Payload, rest: seq<Payload>)
    ensures ReceiveAll(c, s, [p] + rest) == if Gap(s, p) then s else ReceiveAll(c, Receive(c, s, p), rest)
  {
    assert ([p] + rest)[0] == p && ([p] + rest)[1..] == rest;
  }

  /** Main theorem on the stream: at the first gap it ends, and nothing after it counts. */
  lemma {:induction false} GapEndsStream(c: Config, s: State, stream: seq<Payload>, i: nat)
    requires i < |stream| && Gap(ReceiveAll(c, s, stream[..i]), stream[i])
    ensures ReceiveAll(c, s, stream) == ReceiveAll(c, s, stream[..i])
    decreases i
  {
    assert stream == [stream[0]] + stream[1..];
    StreamStep(c, s, stream[0], stream[1..]);
    if i > 0 {
      assert stream[..i] == [stream[0]] + stream[1..][..i - 1];
      StreamStep(c, s, stream[0], stream[1..][..i - 1]);
      if !Gap(s, stream[0]) {
        GapEndsStream(c, Receive(c, s, stream[0]), stream[1..], i - 1);
      }
    }
  }

  /** Before that, every payload is received in turn. */
  lemma {:induction false} NoGapGoesOn(c: Config, s: State, stream: seq<Payload>, i: nat)
    requires i < |stream| && forall j :: 0 <= j <= i ==> !Gap(ReceiveAll(c, s, stream[..j]), stream[j])
    ensures ReceiveAll(c, s, stream[..i + 1]) == Receive(c, ReceiveAll(c, s, stream[..i]), stream[i])
    decreases i
  {
    var rest := stream[1..];
    assert stream[..0] == [] && !Gap(ReceiveAll(c, s, stream[..0]), stream[0]);
    assert stream[..i + 1] == [stream[0]] + rest[..i];
    StreamStep(c, s, stream[0], rest[..i]);
    if i > 0 {
      assert stream[..i] == [stream[0]] + rest[..i - 1];
      StreamStep(c, s, stream[0], rest[..i - 1]);
      forall j | 0 <= j <= i - 1 ensures !Gap(ReceiveAll(c, Receive(c, s, stream[0]), rest[..j]), rest[j]) {
        assert stream[..j + 1] == [stream[0]] + rest[..j];
        StreamStep(c, s, stream[0], rest[..j]);
        assert !Gap(ReceiveAll(c, s, stream[..j + 1]), stream[j + 1]);
      }
      NoGapGoesOn(c, Receive(c, s, stream[0]), rest, i - 1);
    }
  }

  /** A loaded record is stamped with the version of its snapshot, which becomes the follower's. */
  lemma {:induction false} ChunkStamps(c: Config, s: State, rs: seq<Record>, maxTxId: nat, k: string)
    ensures Receive(c, s, Snapshot(rs, maxTxId)).version == maxTxId
    ensures (exists i :: 0 <= i < |rs| && rs[i].key == k) ==>
              Find(LoadRecords(c, s, rs, maxTxId).tree, k).Some? &&
              Find(LoadRecords(c, s, rs, maxTxId).tree, k).value.version == maxTxId
  {
    if rs != [] && rs[|rs| - 1].key != k {
      var before := rs[..|rs| - 1];
      ChunkStamps(c, s, before, maxTxId, k);
      if exists i :: 0 <= i < |rs| && rs[i].key == k {
        var i :| 0 <= i < |rs| && rs[i].key == k;
        assert before[i].key == k;
      }
    }
  }

  // --- Following a log over unreliable streams ----------------------------------------------------------

  /** A record as the leader logged it. */
  ghost predicate Authentic(log: seq<LogEntry>, p: Payload) {
    p.WalRecord? && 1 <= p.txId <= |log| && p.cmd == Some(log[p.txId - 1].cmd)
  }

  /** The follower holds the log applied up to its version, less some expired records. */
  ghost predicate Follows(log: seq<LogEntry>, s: State, now: nat) {
    s.version <= |log| && Trails(s.tree, Fold(log[..s.version]), now)
  }

  /** A replicated record does to the tree what it did at the leader, and is logged again. */
  lemma ApplyRecordTree(c: Config, s: State, e: LogEntry)
    ensures var s' := ApplyRecord(c, s, e);
            s'.tree == Apply(s.tree, e) && s'.version == e.id && s'.wal == s.wal + [e]
  {
    if e.cmd.TxCommit? {
      WriteStepsFrame(c, s, e.id, e.cmd.cmds);
    }
  }

  lemma ApplyNext(c: Config, log: seq<LogEntry>, s: State, now: nat)
    requires Consecutive(log) && Follows(log, s, now) && s.version < |log|
    ensures Follows(log, ApplyRecord(c, s, log[s.version]), now)
    ensures ApplyRecord(c, s, log[s.version]).version == s.version + 1
  {
    var n := s.version;
    ApplyRecordTree(c, s, log[n]);
    TrailsApply(s.tree, Fold(log[..n]), now, log[n]);
    assert log[..n + 1] == log[..n] + [log[n]];
    FoldSnoc(log[..n], log[n]);
  }

  /** Anything that can happen at a follower. */
  datatype Action = Arrives(payload: Payload) | Reconnects | Evicts(op: Op)

  datatype Step = Step(now: nat, action: Action)

  datatype Follower = Follower(state: State, connected: bool)

  function Do(c: Config, f: Follower, step: Step): Follower {
    match step.action
    case Reconnects => f.(connected := true)
    case Evicts(op) => f.(state := Exec(c, f.state, At(step.now, op)))
    case Arrives(p) =>
      if !f.connected then f
      else if Ends(f.state, p) then f.(connected := false)
      else f.(state := Receive(c, f.state, p))
  }

  function DoAll(c: Config, f: Follower, steps: seq<Step>): Follower {
    if steps == [] then f else Do(c, DoAll(c, f, steps[..|steps| - 1]), steps[|steps| - 1])
  }

  /** Authentic records in any order and multiplicity, reconnections, reads and sweeps. */
  ghost predicate Plausible(log: seq<LogEntry>, now: nat, steps: seq<Step>) {
    && (forall i :: 0 <= i < |steps| ==> steps[i].now >= now)
    && (forall i, j :: 0 <= i < j < |steps| ==> steps[i].now <= steps[j].now)
    && (forall i :: 0 <= i < |steps| && steps[i].action.Arrives? ==> Authentic(log, steps[i].action.payload))
    && (forall i :: 0 <= i < |steps| && steps[i].action.Evicts? ==>
          steps[i].action.op.OpGet? || steps[i].action.op.OpSweep?)
  }

  function TimeAfter(now: nat, steps: seq<Step>): nat {
    if steps == [] then now else steps[|steps| - 1].now
  }

  /** One step keeps a follower at a non-zero version on the log. */
  lemma DoFollows(c: Config, log: seq<LogEntry>, f: Follower, step: Step)
    requires Consecutive(log) && Follows(log, f.state, step.now) && f.state.version > 0
    requires step.action.Arrives? ==> Authentic(log, step.action.payload)
    requires step.action.Evicts? ==> step.action.op.OpGet? || step.action.op.OpSweep?
    ensures Follows(log, Do(c, f, step).state, step.now) && Do(c, f, step).state.version >= f.state.version
  {
    match step.action
    case Reconnects =>
    case Arrives(p) =>
      if f.connected && React(f.state.version, p.txId).Accept? {
        ApplyNext(c, log, f.state, step.now);
      }
    case Evicts(op) =>
      ExecEffect(c, f.state, At(step.now, op));
      TrailsCompose(Exec(c, f.state, At(step.now, op)).tree, f.state.tree, Fold(log[..f.state.version]), step.now);
  }

  /** Main theorem: a follower at a non-zero version that follows the log keeps following it,
      whatever is dropped, repeated or reordered, across reconnections and its own evictions,
      and its version never decreases. */
  lemma {:induction false} FollowerStaysCorrect(c: Config, log: seq<LogEntry>, f: Follower, now: nat, steps: seq<Step>)
    requires Consecutive(log) && Follows(log, f.state, now) && f.state.version > 0
    requires Plausible(log, now, steps)
    ensures var f' := DoAll(c, f, steps);
            Follows(log, f'.state, TimeAfter(now, steps)) && f'.state.version >= f.state.version
  {
    if steps != [] {
      var last := |steps| - 1;
      FollowerStaysCorrect(c, log, f, now, steps[..last]);
      var g := DoAll(c, f, steps[..last]);
      TrailsLater(g.state.tree, Fold(log[..g.state.version]), TimeAfter(now, steps[..last]), steps[last].now);
      DoFollows(c, log, g, steps[last]);
    }
  }

  /** The follower shows what the log shows up to its version; records loaded from a snapshot
      carry other versions than the log's. */
  ghost predicate Shows(log: seq<LogEntry>, s: State, now: nat) {
    s.version <= |log| && View(s.tree, now) == View(Fold(log[..s.version]), now)
  }

  lemma ShowsNext(c: Config, log: seq<LogEntry>, s: State, now: nat)
    requires Consecutive(log) && Shows(log, s, now) && s.version < |log|
    ensures Shows(log, ApplyRecord(c, s, log[s.version]), now)
    ensures ApplyRecord(c, s, log[s.version]).version == s.version + 1
  {
    var n := s.version;
    ApplyRecordTree(c, s, log[n]);
    ApplySameView(s.tree, Fold(log[..n]), now, log[n], log[n]);
    assert log[..n + 1] == log[..n] + [log[n]];
    FoldSnoc(log[..n], log[n]);
  }

  lemma DoShows(c: Config, log: seq<LogEntry>, f: Follower, step: Step)
    requires Consecutive(log) && Shows(log, f.state, step.now) && f.state.version > 0
    requires step.action.Arrives? ==> Authentic(log, step.action.payload)
    requires step.action.Evicts? ==> step.action.op.OpGet? || step.action.op.OpSweep?
    ensures Shows(log, Do(c, f, step).state, step.now) && Do(c, f, step).state.version >= f.state.version
  {
    match step.action
    case Reconnects =>
    case Arrives(p) =>
      if f.connected && React(f.state.version, p.txId).Accept? {
        ShowsNext(c, log, f.state, step.now);
      }
    case Evicts(op) =>
      ExecEffect(c, f.state, At(step.now, op));
      EvictionKeepsView(c, f.state, At(step.now, op), step.now);
  }

  /** The same theorem for what clients of the follower see, which also holds after a snapshot. */
  lemma {:induction false} FollowerKeepsView(c: Config, log: seq<LogEntry>, f: Follower, now: nat, steps: seq<Step>)
    requires Consecutive(log) && Shows(log, f.state, now) && f.state.version > 0
    requires Plausible(log, now, steps)
    ensures var f' := DoAll(c, f, steps);
            Shows(log, f'.state, TimeAfter(now, steps)) && f'.state.version >= f.state.version
  {
    if steps != [] {
      var last := |steps| - 1;
      FollowerKeepsView(c, log, f, now, steps[..last]);
      var g := DoAll(c, f, steps[..last]);
      ViewLater(g.state.tree, Fold(log[..g.state.version]), TimeAfter(now, steps[..last]), steps[last].now);
      DoShows(c, log, g, steps[last]);
    }
  }

  /** A command writes every key of a tree. */
  ghost predicate Overwrites(cmd: WalCommand, t: Tree) {
    forall k <- t :: WriteOf(cmd, k).Some?
  }

  /** At version 0 the gap check is off.  An empty follower that accepts record `n` first then
      follows the log exactly when that record overwrites every key the skipped ones left. */
  lemma FirstRecordAtZero(c: Config, log: seq<LogEntry>, s: State, n: nat)
    requires Consecutive(log) && 1 <= n <= |log| && s.version == 0 && s.tree == map[]
    ensures var s' := Receive(c, s, WalRecord(n, Some(log[n - 1].cmd)));
            s'.version == n &&
            (s'.tree == Fold(log[..n]) <==> Overwrites(log[n - 1].cmd, Fold(log[..n - 1])))
  {
    var e := log[n - 1];
    var skipped := Fold(log[..n - 1]);
    ApplyRecordTree(c, s, e);
    assert log[..n] == log[..n - 1] + [e];
    FoldSnoc(log[..n - 1], e);
    forall k ensures Find(Apply(map[], e), k) == Find(Apply(skipped, e), k) <==>
                     (k in skipped ==> WriteOf(e.cmd, k).Some?) {
      ApplyAt(map[], e, k);
      ApplyAt(skipped, e, k);
    }
    if Overwrites(e.cmd, skipped) {
      TreesEqual(Apply(map[], e), Apply(skipped, e));
    }
  }

  /** Two records of different keys, of which the second arrives first: the first is lost, and
      nothing will ever bring it back. */
  lemma SkipsFirstRecord(c: Config, a: string, b: string, v: Bytes)
    requires a != b
    ensures var log := [LogEntry(1, Put(a, v, None)), LogEntry(2, Put(b, v, None))];
            var s := Receive(c, FRESH, WalRecord(2, Some(log[1].cmd)));
            && s.version == 2 && a in Fold(log) && a !in s.tree
            && Receive(c, s, WalRecord(1, Some(log[0].cmd))) == s
  {
    var log := [LogEntry(1, Put(a, v, None)), LogEntry(2, Put(b, v, None))];
    assert log[..1] == [log[0]] && log[..1][..0] == [];
    assert Fold(log[..1]) == map[a := DbRecord(v, None, 1)];
  }

  /** A follower's cache is never filled. */
  lemma {:induction false} FollowerCacheEmpty(c: Config, f: Follower, now: nat, steps: seq<Step>)
    requires f.state.cache == []
    requires forall i :: 0 <= i < |steps| && steps[i].action.Evicts? ==>
            steps[i].action.op.OpGet? || steps[i].action.op.OpSweep?
    ensures DoAll(c, f, steps).state.cache == []
  {
    if steps != [] {
      var last := |steps| - 1;
      FollowerCacheEmpty(c, f, now, steps[..last]);
      DoCacheEmpty(c, DoAll(c, f, steps[..last]), steps[last]);
    }
  }

  lemma DoCacheEmpty(c: Config, f: Follower, step: Step)
    requires f.state.cache == []
    requires step.action.Evicts? ==> step.action.op.OpGet? || step.action.op.OpSweep?
    ensures Do(c, f, step).state.cache == []
  {
    match step.action
    case Reconnects =>
    case Evicts(op) => SweepFrame(c, f.state, step.now);
    case Arrives(p) => ReceiveCache(c, f.state, p);
  }

  lemma ReceiveCache(c: Config, s: State, p: Payload)
    requires s.cache == []
    ensures Receive(c, s, p).cache == []
  {
    match p
    case Snapshot(rs, maxTxId) => LoadRecordsFrame(c, s, rs, maxTxId);
    case WalRecord(txId, cmd) =>
      if cmd.Some? && cmd.value.TxCommit? {
        WriteStepsCacheEmpty(c, s, txId, cmd.value.cmds);
      }
  }

  lemma {:induction false} WriteStepsCacheEmpty(c: Config, s: State, ver: nat, cmds: seq<WalCommand>)
    requires s.cache == []
    ensures WriteSteps(c, s, ver, cmds).cache == []
  {
    if cmds != [] {
      WriteStepsCacheEmpty(c, s, ver, cmds[..|cmds| - 1]);
    }
  }

  lemma {:induction false} LoadRecordsFrame(c: Config, s: State, rs: seq<Record>, maxTxId: nat)
    ensures var s' := LoadRecords(c, s, rs, maxTxId);
            s' == s.(tree := s'.tree, indexes := s'.indexes)
  {
    if rs != [] {
      LoadRecordsFrame(c, s, rs[..|rs| - 1], maxTxId);
    }
  }

  // --- Indexes at a follower --------------------------------------------------------------------------------

  /** The updates that loading a chunk amounts to. */
  function ChunkOps(rs: seq<Record>, maxTxId: nat): (ops: seq<BlindOp>)
    ensures |ops| == |rs|
    ensures forall i :: 0 <= i < |rs| ==> ops[i] == Store(rs[i].key, DbRecord(rs[i].value, rs[i].expiresAt, maxTxId))
  {
    seq(|rs|, i requires 0 <= i < |rs| => Store(rs[i].key, DbRecord(rs[i].value, rs[i].expiresAt, maxTxId)))
  }

  lemma {:induction false} LoadIsBlind(c: Config, s: State, rs: seq<Record>, maxTxId: nat)
    ensures var s' := LoadRecords(c, s, rs, maxTxId);
            Filing(s'.tree, s'.indexes) == BlindRun(c, Filing(s.tree, s.indexes), ChunkOps(rs, maxTxId))
  {
    if rs != [] {
      LoadIsBlind(c, s, rs[..|rs| - 1], maxTxId);
      assert ChunkOps(rs, maxTxId)[..|rs| - 1] == ChunkOps(rs[..|rs| - 1], maxTxId);
    }
  }

  /** A log record keeps the indexes exact and complete.  A snapshot chunk keeps them complete,
      and keeps them exact if and only if no record of the chunk replaces one with an index key
      that it lacks and that the chunk does not bring back. */
  lemma ReceiveIndexes(c: Config, s: State, p: Payload)
    ensures Complete(c, s.tree, s.indexes) ==> Complete(c, Receive(c, s, p).tree, Receive(c, s, p).indexes)
    ensures Exact(c, s.tree, s.indexes) ==>
              (Exact(c, Receive(c, s, p).tree, Receive(c, s, p).indexes) <==>
               (p.Snapshot? ==> NothingStale(c, Filing(s.tree, s.indexes), ChunkOps(p.records, p.maxTxId))))
  {
    match p
    case Snapshot(rs, maxTxId) =>
      LoadIsBlind(c, s, rs, maxTxId);
      var f := Filing(s.tree, s.indexes);
      if Complete(c, s.tree, s.indexes) {
        BlindComplete(c, f, ChunkOps(rs, maxTxId));
      }
      if Exact(c, s.tree, s.indexes) {
        BlindExact(c, f, ChunkOps(rs, maxTxId));
      }
    case WalRecord(txId, cmd) =>
      if cmd.Some? {
        var cmds := if cmd.value.TxCommit? then cmd.value.cmds else [cmd.value];
        WriteStepsIndexes(c, s, txId, cmds);
        assert [cmd.value][..0] == [];
        assert !cmd.value.TxCommit? ==> WriteSteps(c, s, txId, [cmd.value]) == WriteStep(c, s, txId, cmd.value);
      }
  }

  /** A follower with one record gets a chunk with another value for its key. */
  lemma ChunkLeavesStale(c: Config, k: string, v: Bytes, v': Bytes, ik: string)
    requires ik in c.extract(k, v) && ik !in c.extract(k, v')
    ensures var s := Receive(c, FRESH, WalRecord(1, Some(Put(k, v, None))));
            var s' := Receive(c, s, Snapshot([Record(k, v', None)], 2));
            && Exact(c, s.tree, s.indexes)
            && InIndex(s'.indexes, ik, k) && !Files(c, s'.tree, ik, k)
  {
    var p := WalRecord(1, Some(Put(k, v, None)));
    var s := Receive(c, FRESH, p);
    ReceiveIndexes(c, FRESH, p);
    assert Files(c, s.tree, ik, k);
    OverwriteLeavesStale(c, Filing(s.tree, s.indexes), k, DbRecord(v', None, 2), ik);
    var chunk := [Record(k, v', None)];
    assert chunk[..0] == [];
    assert LoadRecords(c, s, chunk, 2) == LoadRecord(c, s, chunk[0], 2);
  }
}
