/**
 One sync round: what the leader sends to a follower that reports its last known id, and what
 the follower holds once it has received all of it.
 */
module Sync {
  import opened Prelude
  import opened Ordered
  import opened Store
  import Log = Wal
  import opened Server
  import opened History
  import opened Restart
  import opened KindServer
  import opened Replica

  const CHUNK_SIZE: nat := 100

  // --- The leader's side ------------------------------------------------------------------------

  function ToRecords(rs: seq<SnapshotRecord>): (out: seq<Record>)
    ensures |out| == |rs|
    ensures forall i :: 0 <= i < |rs| ==> out[i] == Record(rs[i].key, rs[i].rec.value, rs[i].rec.expiresAt)
  {
    seq(|rs|, i requires 0 <= i < |rs| => Record(rs[i].key, rs[i].rec.value, rs[i].rec.expiresAt))
  }

  /** Full chunks sent so far, and the chunk being filled. */
  datatype Chunking = Chunking(sent: seq<Payload>, chunk: seq<Record>)

  function Push(st: Chunking, r: Record, maxTxId: nat): Chunking {
    var chunk := st.chunk + [r];
    if |chunk| >= CHUNK_SIZE then Chunking(st.sent + [Snapshot(chunk, maxTxId)], []) else st.(chunk := chunk)
  }

  function PushAll(rs: seq<Record>, maxTxId: nat): Chunking {
    if rs == [] then Chunking([], []) else Push(PushAll(rs[..|rs| - 1], maxTxId), rs[|rs| - 1], maxTxId)
  }

  /** The last chunk is sent when it is not empty, or when the leader has no version yet. */
  function ChunksOf(rs: seq<Record>, maxTxId: nat): seq<Payload> {
    var st := PushAll(rs, maxTxId);
    if st.chunk != [] || maxTxId == 0 then st.sent + [Snapshot(st.chunk, maxTxId)] else st.sent
  }

  function Flat(ps: seq<Payload>): seq<Record> {
    if ps == [] then []
    else Flat(ps[..|ps| - 1]) + if ps[|ps| - 1].Snapshot? then ps[|ps| - 1].records else []
  }

  /** The log no longer reaches back to what the follower knows, or it knows nothing. */
  predicate NeedsSnapshot(wal: seq<LogEntry>, version: nat, lastKnown: nat) {
    var records := Log.FromId(wal, lastKnown + 1);
    lastKnown == 0 || (if records == [] then version > lastKnown else records[0].id > lastKnown + 1)
  }

  function AsPayloads(es: seq<LogEntry>): (ps: seq<Payload>)
    ensures |ps| == |es| && forall i :: 0 <= i < |es| ==> ps[i] == WalRecord(es[i].id, Some(es[i].cmd))
  {
    seq(|es|, i requires 0 <= i < |es| => WalRecord(es[i].id, Some(es[i].cmd)))
  }

  /** Everything one round sends when nothing is written meanwhile. */
  function SyncPayloads(s: State, lastKnown: nat, now: nat): seq<Payload> {
    if NeedsSnapshot(s.wal, s.version, lastKnown) then ChunksOf(ToRecords(SnapshotOf(s.tree, now)), s.version)
    else AsPayloads(Log.FromId(s.wal, lastKnown + 1))
  }

  /** The handler: reads the log and answers from it. */
  method SyncRound(server: KindServer, lastKnown: nat, now: nat) returns (payloads: seq<Payload>)
    requires server.Valid()
    ensures payloads == SyncPayloads(server.Value(), lastKnown, now)
  {
    var records := Log.ReadFromTxId(server.wal.codec, server.wal.file, lastKnown + 1);
    Log.ReadWritten(server.wal.codec, server.wal.entries);
    payloads := Reply(records, server.tree, server.globalVersion, lastKnown, now, server.wal.entries);
  }

  /** Decides between the log records read and a snapshot, and builds the payloads. */
  method Reply(records: seq<LogEntry>, t: Tree, version: nat, lastKnown: nat, now: nat, ghost wal: seq<LogEntry>)
      returns (payloads: seq<Payload>)
    requires records == Log.FromId(wal, lastKnown + 1)
    ensures payloads == if NeedsSnapshot(wal, version, lastKnown) then ChunksOf(ToRecords(SnapshotOf(t, now)), version)
                        else AsPayloads(records)
  {
    var requireSnapshot := false;
    if lastKnown == 0 {
      requireSnapshot := true;
    } else if records == [] {
      if version > lastKnown {
        requireSnapshot := true;
      }
    } else if records[0].id > lastKnown + 1 {
      requireSnapshot := true;
    }
    if requireSnapshot {
      payloads := SendSnapshot(t, now, version);
    } else {
      payloads := AsPayloads(records);
    }
  }

  method SendSnapshot(t: Tree, now: nat, maxTxId: nat) returns (payloads: seq<Payload>)
    ensures payloads == ChunksOf(ToRecords(SnapshotOf(t, now)), maxTxId)
  {
    var keys := InOrder(t.Keys);
    payloads := [];
    var chunk := [];
    for i := 0 to |keys|
      invariant Chunking(payloads, chunk) == PushAll(ToRecords(LiveRecords(t, now, keys[..i])), maxTxId)
    {
      assert keys[i] in keys;
      var rec := t[keys[i]];
      PushLive(t, now, keys, i, maxTxId);
      if !IsExpired(rec.expiresAt, now) {
        chunk := chunk + [Record(keys[i], rec.value, rec.expiresAt)];
        if |chunk| >= CHUNK_SIZE {
          payloads := payloads + [Snapshot(chunk, maxTxId)];
          chunk := [];
        }
      }
    }
    assert keys[..|keys|] == keys;
    LiveRecordsInOrder(t, now);
    if chunk != [] || maxTxId == 0 {
      payloads := payloads + [Snapshot(chunk, maxTxId)];
    }
  }

  /** One turn of that loop. */
  lemma PushLive(t: Tree, now: nat, keys: seq<string>, i: nat, maxTxId: nat)
    requires i < |keys| && keys[i] in t
    ensures var st := PushAll(ToRecords(LiveRecords(t, now, keys[..i])), maxTxId);
            var rec := t[keys[i]];
            PushAll(ToRecords(LiveRecords(t, now, keys[..i + 1])), maxTxId) ==
            if IsExpired(rec.expiresAt, now) then st else Push(st, Record(keys[i], rec.value, rec.expiresAt), maxTxId)
  {
    var done := LiveRecords(t, now, keys[..i]);
    LiveRecordsSnoc(t, now, keys, i);
    assert done + [] == done;
    PushRecord(done, SnapshotRecord(keys[i], t[keys[i]]), maxTxId);
  }

  lemma PushRecord(rs: seq<SnapshotRecord>, r: SnapshotRecord, maxTxId: nat)
    ensures PushAll(ToRecords(rs + [r]), maxTxId) ==
            Push(PushAll(ToRecords(rs), maxTxId), Record(r.key, r.rec.value, r.rec.expiresAt), maxTxId)
  {
    assert ToRecords(rs + [r])[..|rs|] == ToRecords(rs);
  }

  // --- Chunks carry everything once ------------------------------------------------------------------

  ghost predicate SmallChunks(ps: seq<Payload>, maxTxId: nat) {
    forall i :: 0 <= i < |ps| ==> ps[i].Snapshot? && |ps[i].records| <= CHUNK_SIZE && ps[i].maxTxId == maxTxId
  }

  lemma FlatSnoc(ps: seq<Payload>, p: Payload)
    ensures Flat(ps + [p]) == Flat(ps) + if p.Snapshot? then p.records else []
  {
    assert (ps + [p])[..|ps|] == ps;
  }

  /** Full chunks have been sent, the one being filled is not full, nothing is lost. */
  ghost predicate Chunked(st: Chunking, rs: seq<Record>, maxTxId: nat) {
    SmallChunks(st.sent, maxTxId) && |st.chunk| < CHUNK_SIZE && Flat(st.sent) + st.chunk == rs
  }

  lemma PushKeeps(st: Chunking, rs: seq<Record>, r: Record, maxTxId: nat)
    requires Chunked(st, rs, maxTxId)
    ensures Chunked(Push(st, r, maxTxId), rs + [r], maxTxId)
  {
    var chunk := st.chunk + [r];
    assert Flat(st.sent) + chunk == (Flat(st.sent) + st.chunk) + [r];
    if |chunk| >= CHUNK_SIZE {
      FlatSnoc(st.sent, Snapshot(chunk, maxTxId));
      assert (Flat(st.sent) + chunk) + [] == Flat(st.sent) + chunk;
    }
  }

  lemma {:induction false} PushAllFacts(rs: seq<Record>, maxTxId: nat)
    ensures Chunked(PushAll(rs, maxTxId), rs, maxTxId)
  {
    if rs != [] {
      var last := |rs| - 1;
      PushAllFacts(rs[..last], maxTxId);
      PushKeeps(PushAll(rs[..last], maxTxId), rs[..last], rs[last], maxTxId);
      assert rs == rs[..last] + [rs[last]];
    }
  }

  /** Chunks hold at most 100 records each and together carry the given records, in order. */
  lemma ChunksCarryAll(rs: seq<Record>, maxTxId: nat)
    ensures SmallChunks(ChunksOf(rs, maxTxId), maxTxId) && Flat(ChunksOf(rs, maxTxId)) == rs
    ensures ChunksOf(rs, maxTxId) == [] <==> rs == [] && maxTxId > 0
  {
    PushAllFacts(rs, maxTxId);
    var st := PushAll(rs, maxTxId);
    FlatSnoc(st.sent, Snapshot(st.chunk, maxTxId));
    if st.sent == [] {
      assert Flat(st.sent) + st.chunk == st.chunk;
    } else {
      FlatNonEmpty(rs, maxTxId);
    }
  }

  lemma {:induction false} FlatNonEmpty(rs: seq<Record>, maxTxId: nat)
    requires PushAll(rs, maxTxId).sent != []
    ensures rs != []
  {
  }

  /** All chunks but the last hold exactly 100 records, and the last at most as many. */
  lemma {:induction false} PushAllFull(rs: seq<Record>, maxTxId: nat)
    ensures var st := PushAll(rs, maxTxId);
            (forall i :: 0 <= i < |st.sent| ==> st.sent[i].Snapshot? && |st.sent[i].records| == 100) && |st.chunk| < 100
  {
    if rs != [] {
      PushAllFull(rs[..|rs| - 1], maxTxId);
    }
  }

  lemma ChunkSizes(rs: seq<Record>, maxTxId: nat)
    ensures var ps := ChunksOf(rs, maxTxId);
            forall i :: 0 <= i < |ps| ==>
              ps[i].Snapshot? && if i < |ps| - 1 then |ps[i].records| == 100 else |ps[i].records| <= 100
  {
    PushAllFull(rs, maxTxId);
  }

  /** A snapshot reply carries every live record exactly once. */
  lemma SnapshotReply(t: Tree, now: nat, maxTxId: nat)
    ensures var ps := ChunksOf(ToRecords(SnapshotOf(t, now)), maxTxId);
            && SmallChunks(ps, maxTxId)
            && (forall i, j :: 0 <= i < j < |Flat(ps)| ==> Flat(ps)[i].key != Flat(ps)[j].key)
            && (forall i :: 0 <= i < |Flat(ps)| ==>
                  Visible(Find(t, Flat(ps)[i].key), now) == Some(Seen(Flat(ps)[i].value, Flat(ps)[i].expiresAt)))
            && |Flat(ps)| == |LiveKeys(t, now)|
  {
    ChunksCarryAll(ToRecords(SnapshotOf(t, now)), maxTxId);
    var ks := InOrder(LiveKeys(t, now));
    SortedDistinct(ks);
    assert forall i :: 0 <= i < |ks| ==> ks[i] in LiveKeys(t, now);
  }

  // --- The follower's side: a snapshot reply --------------------------------------------------------------

  function LastRecord(rs: seq<Record>, k: string): Option<Seen> {
    if rs == [] then None
    else if rs[|rs| - 1].key == k then Some(Seen(rs[|rs| - 1].value, rs[|rs| - 1].expiresAt))
    else LastRecord(rs[..|rs| - 1], k)
  }

  lemma {:induction false} LoadRecordsAt(c: Config, s: State, rs: seq<Record>, maxTxId: nat, k: string)
    ensures Shown(Find(LoadRecords(c, s, rs, maxTxId).tree, k)) ==
            if LastRecord(rs, k).Some? then LastRecord(rs, k) else Shown(Find(s.tree, k))
    ensures LastRecord(rs, k).None? ==> Find(LoadRecords(c, s, rs, maxTxId).tree, k) == Find(s.tree, k)
  {
    if rs != [] {
      LoadRecordsAt(c, s, rs[..|rs| - 1], maxTxId, k);
    }
  }

  lemma {:induction false} LastRecordOfSnapshot(rs: seq<SnapshotRecord>, k: string)
    ensures LastRecord(ToRecords(rs), k) == Shown(InSnapshot(rs, k))
  {
    if rs != [] {
      LastRecordOfSnapshot(rs[..|rs| - 1], k);
      assert ToRecords(rs)[..|rs| - 1] == ToRecords(rs[..|rs| - 1]);
    }
  }

  lemma {:induction false} LoadInParts(c: Config, s: State, a: seq<Record>, b: seq<Record>, maxTxId: nat)
    ensures LoadRecords(c, LoadRecords(c, s, a, maxTxId), b, maxTxId) == LoadRecords(c, s, a + b, maxTxId)
  {
    if b == [] {
      assert a + b == a;
    } else {
      LoadInParts(c, s, a, b[..|b| - 1], maxTxId);
      assert (a + b)[..|a + b| - 1] == a + b[..|b| - 1];
    }
  }

  lemma {:induction false} LoadKeepsVersion(c: Config, s: State, rs: seq<Record>, maxTxId: nat, v: nat)
    ensures LoadRecords(c, s.(version := v), rs, maxTxId) == LoadRecords(c, s, rs, maxTxId).(version := v)
  {
    if rs != [] {
      LoadKeepsVersion(c, s, rs[..|rs| - 1], maxTxId, v);
    }
  }

  lemma ReceiveAllSnoc(c: Config, s: State, ps: seq<Payload>, p: Payload, maxTxId: nat)
    requires SmallChunks(ps + [p], maxTxId)
    ensures ReceiveAll(c, s, ps + [p]) == Receive(c, ReceiveAll(c, s, ps), p)
    decreases |ps|
  {
    if ps == [] {
      assert ps + [p] == [p] && [p][1..] == [];
    } else {
      assert SmallChunks(ps[1..] + [p], maxTxId) by {
        assert forall i :: 0 <= i < |ps| ==> (ps[1..] + [p])[i] == (ps + [p])[i + 1];
      }
      assert ps[0] == (ps + [p])[0];
      ReceiveAllSnoc(c, Receive(c, s, ps[0]), ps[1..], p, maxTxId);
      assert (ps + [p])[1..] == ps[1..] + [p];
    }
  }

  /** Receiving all chunks amounts to loading their records in one go. */
  lemma {:induction false} ReceiveChunks(c: Config, s: State, ps: seq<Payload>, maxTxId: nat)
    requires SmallChunks(ps, maxTxId)
    ensures ReceiveAll(c, s, ps) ==
            LoadRecords(c, s, Flat(ps), maxTxId).(version := if ps == [] then s.version else maxTxId)
  {
    if ps != [] {
      var last := |ps| - 1;
      var before, p := ps[..last], ps[last];
      assert ps == before + [p];
      ReceiveChunks(c, s, before, maxTxId);
      ReceiveAllSnoc(c, s, before, p, maxTxId);
      var v := if before == [] then s.version else maxTxId;
      LoadKeepsVersion(c, LoadRecords(c, s, Flat(before), maxTxId), p.records, maxTxId, v);
      LoadInParts(c, s, Flat(before), p.records, maxTxId);
    }
  }

  /** After a snapshot reply the follower shows the leader's live records, and for any other
      key what it held before. */
  lemma AfterSnapshot(c: Config, leader: Tree, maxTxId: nat, r: State, now: nat, k: string)
    ensures var r' := ReceiveAll(c, r, ChunksOf(ToRecords(SnapshotOf(leader, now)), maxTxId));
            Visible(Find(r'.tree, k), now) ==
            if Visible(Find(leader, k), now).Some? then Visible(Find(leader, k), now) else Visible(Find(r.tree, k), now)
  {
    var rs := ToRecords(SnapshotOf(leader, now));
    ChunksCarryAll(rs, maxTxId);
    ReceiveChunks(c, r, ChunksOf(rs, maxTxId), maxTxId);
    LoadRecordsAt(c, r, rs, maxTxId, k);
    LastRecordOfSnapshot(SnapshotOf(leader, now), k);
    SnapshotHolds(leader, now, k);
  }

  // --- The follower's side: a log reply ---------------------------------------------------------------------

  lemma {:induction false} FromIdConsecutive(es: seq<LogEntry>, first: nat, start: nat)
    requires forall i :: 0 <= i < |es| ==> es[i].id == first + i
    ensures Log.FromId(es, start) ==
            if start <= first then es else if start - first >= |es| then [] else es[start - first..]
  {
    if es != [] {
      FromIdConsecutive(es[1..], first + 1, start);
      assert es == [es[0]] + es[1..];
      assert start > first && start - first < |es| ==> es[1..][start - first - 1..] == es[start - first..];
    }
  }

  /** The log numbers its entries from where it was last truncated. */
  lemma LogNumbers(s: State)
    requires Numbered(s)
    ensures forall i :: 0 <= i < |s.wal| ==> s.wal[i].id == |s.sent| - |s.wal| + 1 + i
  {
    var w := |s.sent| - |s.wal|;
    assert forall i :: 0 <= i < |s.wal| ==> s.wal[i] == s.sent[w + i];
  }

  lemma DropDrop<T>(s: seq<T>, a: nat, b: nat)
    requires a <= b <= |s|
    ensures s[a..][b - a..] == s[b..]
  {
  }

  /** The records read for a follower at version `v`: everything after `v` if the log reaches
      back that far, the whole log otherwise. */
  lemma RecordsAfter(s: State, v: nat)
    requires Numbered(s) && v <= s.version
    ensures Log.FromId(s.wal, v + 1) == if v >= |s.sent| - |s.wal| then s.sent[v..] else s.wal
  {
    var w := |s.sent| - |s.wal|;
    LogNumbers(s);
    FromIdConsecutive(s.wal, w + 1, v + 1);
    if v >= w {
      DropDrop(s.sent, w, v);
    }
  }

  lemma {:induction false} ReceiveTail(c: Config, log: seq<LogEntry>, r: State, now: nat)
    requires Consecutive(log) && Shows(log, r, now)
    ensures var r' := ReceiveAll(c, r, AsPayloads(log[r.version..]));
            Shows(log, r', now) && r'.version == |log|
    decreases |log| - r.version
  {
    if r.version < |log| {
      var ps := AsPayloads(log[r.version..]);
      ShowsNext(c, log, r, now);
      assert ps[0] == WalRecord(r.version + 1, Some(log[r.version].cmd));
      assert ps[1..] == AsPayloads(log[r.version + 1..]);
      ReceiveTail(c, log, ApplyRecord(c, r, log[r.version]), now);
    }
  }

  // --- Main theorem -----------------------------------------------------------------------------------------------

  /** Something visible at the follower that the leader no longer shows. */
  ghost predicate HasStale(r: Tree, leader: Tree, now: nat) {
    exists k :: Visible(Find(r, k), now).Some? && Visible(Find(leader, k), now).None?
  }

  /** One uninterrupted round, with no writes meanwhile, brings a follower that shows a prefix of
      the leader's log, whether it got there by records or by snapshots, to the leader's view,
      exactly unless the round is a snapshot over stale keys: chunks add and overwrite, but never
      remove. */
  lemma SyncConverges(c: Config, evs: seq<Event>, r: State, now: nat)
    requires Timely(evs) && now >= Clock(evs) && Shows(Run(c, FRESH, evs).sent, r, now)
    ensures var s := Run(c, FRESH, evs);
            var r' := ReceiveAll(c, r, SyncPayloads(s, r.version, now));
            && (View(r'.tree, now) == View(s.tree, now) <==>
                !(BeyondLog(s, r.version) && HasStale(r.tree, s.tree, now)))
            && (r'.version == s.version || (View(s.tree, now) == map[] && r'.version == r.version))
  {
    var s := Run(c, FRESH, evs);
    RunNumbered(c, evs);
    RunTrails(c, evs);
    TrailsLater(s.tree, Fold(s.sent), Clock(evs), now);
    TrailsSameView(s.tree, Fold(s.sent), now);
    NeedsSnapshotExact(s, r.version);
    if BeyondLog(s, r.version) {
      SnapshotConverges(c, s, r, now);
      SnapshotVersion(c, s, r, now);
    } else {
      LogReplyConverges(c, s, r, now);
    }
  }

  /** When the log suffices, the records read are all that the follower misses. */
  lemma RecordsSuffice(s: State, v: nat)
    requires Numbered(s) && v <= s.version && !NeedsSnapshot(s.wal, s.version, v)
    ensures Log.FromId(s.wal, v + 1) == s.sent[v..]
  {
    RecordsAfter(s, v);
    if v < |s.sent| - |s.wal| {
      LogNumbers(s);
      assert false;
    }
  }

  /** The follower knows nothing, or the log file no longer reaches back to what it knows. */
  predicate BeyondLog(s: State, v: nat) {
    v == 0 || v + |s.wal| < |s.sent|
  }

  /** The decision between log records and a snapshot, for the states that runs reach. */
  lemma NeedsSnapshotExact(s: State, v: nat)
    requires Numbered(s) && v <= s.version
    ensures NeedsSnapshot(s.wal, s.version, v) <==> BeyondLog(s, v)
  {
    if v > 0 {
      RecordsAfter(s, v);
      LogNumbers(s);
    }
  }

  /** Main theorem on the reply: after every run, a follower that knows something within reach of
      the log file gets exactly the records it lacks, and any other the live records. */
  lemma ReplyExact(c: Config, evs: seq<Event>, v: nat, now: nat)
    requires v <= Run(c, FRESH, evs).version
    ensures var s := Run(c, FRESH, evs);
            s.version == |s.sent| &&
            SyncPayloads(s, v, now) ==
            if v > 0 && |s.sent| - |s.wal| <= v then AsPayloads(s.sent[v..])
            else ChunksOf(ToRecords(SnapshotOf(s.tree, now)), s.version)
  {
    var s := Run(c, FRESH, evs);
    RunNumbered(c, evs);
    NeedsSnapshotExact(s, v);
    if !BeyondLog(s, v) {
      LogReply(s, v, now);
    }
  }

  lemma LogReply(s: State, v: nat, now: nat)
    requires Numbered(s) && v <= s.version && !NeedsSnapshot(s.wal, s.version, v)
    ensures SyncPayloads(s, v, now) == AsPayloads(s.sent[v..])
  {
    RecordsSuffice(s, v);
  }

  /** Receiving all of the log that a follower misses brings it to the end of the log. */
  lemma TailConverges(c: Config, log: seq<LogEntry>, r: State, now: nat)
    requires Consecutive(log) && Shows(log, r, now)
    ensures var r' := ReceiveAll(c, r, AsPayloads(log[r.version..]));
            View(r'.tree, now) == View(Fold(log), now) && r'.version == |log|
  {
    ReceiveTail(c, log, r, now);
    assert log[..|log|] == log;
  }

  lemma LogReplyConverges(c: Config, s: State, r: State, now: nat)
    requires Numbered(s) && Shows(s.sent, r, now) && !NeedsSnapshot(s.wal, s.version, r.version)
    requires View(s.tree, now) == View(Fold(s.sent), now)
    ensures var r' := ReceiveAll(c, r, SyncPayloads(s, r.version, now));
            View(r'.tree, now) == View(s.tree, now) && r'.version == s.version
  {
    LogReply(s, r.version, now);
    TailConverges(c, s.sent, r, now);
  }

  lemma SnapshotConverges(c: Config, s: State, r: State, now: nat)
    ensures var r' := ReceiveAll(c, r, ChunksOf(ToRecords(SnapshotOf(s.tree, now)), s.version));
            View(r'.tree, now) == View(s.tree, now) <==> !HasStale(r.tree, s.tree, now)
  {
    var r' := ReceiveAll(c, r, ChunksOf(ToRecords(SnapshotOf(s.tree, now)), s.version));
    forall k ensures Visible(Find(r'.tree, k), now) ==
                     if Visible(Find(s.tree, k), now).Some? then Visible(Find(s.tree, k), now)
                     else Visible(Find(r.tree, k), now) {
      AfterSnapshot(c, s.tree, s.version, r, now, k);
    }
    StaleOrEqual(r'.tree, s.tree, r.tree, now);
  }

  lemma StaleOrEqual(t': Tree, leader: Tree, t: Tree, now: nat)
    requires forall k :: Visible(Find(t', k), now) ==
               if Visible(Find(leader, k), now).Some? then Visible(Find(leader, k), now) else Visible(Find(t, k), now)
    ensures View(t', now) == View(leader, now) <==> !HasStale(t, leader, now)
  {
    ViewsEqual(t', leader, now);
    if HasStale(t, leader, now) {
      var k :| Visible(Find(t, k), now).Some? && Visible(Find(leader, k), now).None?;
      assert Visible(Find(t', k), now) != Visible(Find(leader, k), now);
    }
  }

  /** A snapshot reply sets the follower's version, unless there was nothing to send. */
  lemma SnapshotVersion(c: Config, s: State, r: State, now: nat)
    ensures var r' := ReceiveAll(c, r, ChunksOf(ToRecords(SnapshotOf(s.tree, now)), s.version));
            r'.version == s.version || (View(s.tree, now) == map[] && r'.version == r.version)
  {
    var rs := ToRecords(SnapshotOf(s.tree, now));
    ChunksCarryAll(rs, s.version);
    ReceiveChunks(c, r, ChunksOf(rs, s.version), s.version);
    if ChunksOf(rs, s.version) == [] {
      assert |InOrder(LiveKeys(s.tree, now))| == 0;
      assert LiveKeys(s.tree, now) == {};
      assert View(s.tree, now).Keys == LiveKeys(s.tree, now);
    }
  }

  /** A follower that shows a prefix of the log, within reach of the log file, gets the leader's view,
      deleted keys included. */
  lemma InReachConverges(c: Config, evs: seq<Event>, r: State, now: nat)
    requires Timely(evs) && now >= Clock(evs) && Shows(Run(c, FRESH, evs).sent, r, now)
    requires var s := Run(c, FRESH, evs); r.version > 0 && |s.sent| - |s.wal| <= r.version
    ensures var s := Run(c, FRESH, evs);
            var r' := ReceiveAll(c, r, SyncPayloads(s, r.version, now));
            View(r'.tree, now) == View(s.tree, now) && r'.version == s.version
  {
    var s := Run(c, FRESH, evs);
    RunNumbered(c, evs);
    RunView(c, evs);
    ViewLater(s.tree, Fold(s.sent), Clock(evs), now);
    NeedsSnapshotExact(s, r.version);
    LogReplyConverges(c, s, r, now);
  }

  /** In particular a fresh follower always ends with the leader's view. */
  lemma FreshFollowerConverges(c: Config, evs: seq<Event>, now: nat)
    requires Timely(evs) && now >= Clock(evs)
    ensures var s := Run(c, FRESH, evs);
            View(ReceiveAll(c, FRESH, SyncPayloads(s, 0, now)).tree, now) == View(s.tree, now)
  {
    SyncConverges(c, evs, FRESH, now);
  }

  function StaleRun(a: string, b: string, v: Bytes): seq<Event> {
    [At(0, OpPut(a, v, None)), At(0, OpDelete(a)), At(0, OpSnapshot(true)), At(0, OpPut(b, v, None))]
  }

  lemma StaleRunStates(c: Config, a: string, b: string, v: Bytes)
    ensures var evs := StaleRun(a, b, v);
            var s, r := Run(c, FRESH, evs), Run(c, FRESH, evs[..1]);
            && r.tree == map[a := DbRecord(v, None, 1)] && r.version == 1
            && s.tree == map[b := DbRecord(v, None, 3)] && s.version == 3
            && s.wal == [LogEntry(3, Put(b, v, None))]
            && |s.sent| == 3 && s.sent[0] == LogEntry(1, Put(a, v, None))
  {
    var evs := StaleRun(a, b, v);
    RunSnoc(c, FRESH, evs, 0);
    RunSnoc(c, FRESH, evs, 1);
    RunSnoc(c, FRESH, evs, 2);
    RunSnoc(c, FRESH, evs, 3);
    assert evs[..0] == [] && evs[..4] == evs;
    var s2 := Run(c, FRESH, evs[..2]);
    assert s2.tree == map[];
  }

  /** A follower that does keep a stale key: it has `a`; the leader deletes `a`, truncates its
      log and writes `b`, so the round is a snapshot, which says nothing about `a`. */
  lemma StaleKeySurvives(c: Config, a: string, b: string, v: Bytes)
    requires a != b
    ensures var evs := StaleRun(a, b, v);
            var s, r := Run(c, FRESH, evs), Run(c, FRESH, evs[..1]);
            var r' := ReceiveAll(c, r, SyncPayloads(s, r.version, 0));
            Timely(evs) && Shows(s.sent, r, 0) && BeyondLog(s, r.version) &&
            Visible(Find(s.tree, a), 0) == None && Visible(Find(r'.tree, a), 0) == Some(Seen(v, None))
  {
    StaleRunStates(c, a, b, v);
    var s, r := Run(c, FRESH, StaleRun(a, b, v)), Run(c, FRESH, StaleRun(a, b, v)[..1]);
    assert s.wal[1..] == [];
    assert s.sent[..1] == [LogEntry(1, Put(a, v, None))] && s.sent[..1][..0] == [];
    assert Fold(s.sent[..1]) == r.tree;
    AfterSnapshot(c, s.tree, s.version, r, 0, a);
  }
}
