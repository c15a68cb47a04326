/**
 The server: its state, and what each request and background job does to it.  Every step is
 atomic here; `KindServer` performs the steps in place, and `Concurrency` looks inside CAS and
 commit.
 */
module Server {
  import opened Prelude
  import opened Ordered
  import opened Store
  import opened Indexes
  import Lru = LruSpec

  datatype Config = Config(extract: Extractor, capacity: nat)

  /** What scans, queries and replication carry of a record. */
  datatype Record = Record(key: string, value: Bytes, expiresAt: Option<nat>)

  datatype SnapshotRecord = SnapshotRecord(key: string, rec: DbRecord)

  /** `sent` lists everything ever announced to followers since the start. */
  datatype State = State(
    tree: Tree,
    indexes: Indexes,
    cache: seq<Lru.Entry<string, Bytes>>,
    version: nat,
    wal: seq<LogEntry>,
    snapshot: seq<SnapshotRecord>,
    sent: seq<LogEntry>)

  const FRESH := State(map[], map[], [], 0, [], [], [])

  // --- Steps ---------------------------------------------------------------------------------

  function Logged(s: State, cmd: WalCommand): State {
    var e := LogEntry(s.version + 1, cmd);
    s.(version := s.version + 1, wal := s.wal + [e], sent := s.sent + [e])
  }

  /** The indexes once the current record of `k` is taken out of them. */
  function Unindexed(c: Config, s: State, k: string): Indexes {
    if k in s.tree then RemoveKeys(s.indexes, c.extract(k, s.tree[k].value), k) else s.indexes
  }

  /** Logs a Put and inserts its record under the new version. */
  function Inserted(s: State, k: string, v: Bytes, e: Option<nat>): State {
    Logged(s, Put(k, v, e)).(tree := s.tree[k := DbRecord(v, e, s.version + 1)])
  }

  /** A put first indexes the new value and, unless it has a TTL, caches it. */
  function Prepared(c: Config, s: State, k: string, v: Bytes, e: Option<nat>): State {
    s.(indexes := AddKeys(Unindexed(c, s, k), c.extract(k, v), k),
       cache := if e.None? then Lru.Put(c.capacity, s.cache, k, v) else s.cache)
  }

  function PutStep(c: Config, s: State, k: string, v: Bytes, e: Option<nat>): State {
    Inserted(Prepared(c, s, k, v, e), k, v, e)
  }

  function DeleteStep(c: Config, s: State, k: string): State {
    if k in s.tree then
      Logged(s, Delete(k)).(tree := s.tree - {k}, indexes := Unindexed(c, s, k), cache := Lru.Without(s.cache, k))
    else s
  }

  predicate CasSucceeds(t: Tree, now: nat, k: string, expected: Bytes) {
    if k in t && !IsExpired(t[k].expiresAt, now) then t[k].value == expected else expected == []
  }

  /** The tail that both successful branches of CAS share. */
  function CasStored(c: Config, s: State, k: string, v: Bytes, e: Option<nat>): State {
    Inserted(s.(indexes := AddKeys(s.indexes, c.extract(k, v), k), cache := Lru.Without(s.cache, k)), k, v, e)
  }

  /** Over an expired record the old value is left in the indexes. */
  function CasStep(c: Config, s: State, now: nat, k: string, expected: Bytes, v: Bytes, e: Option<nat>): State {
    if !CasSucceeds(s.tree, now, k, expected) then s
    else if k in s.tree && !IsExpired(s.tree[k].expiresAt, now) then
      CasStored(c, s.(indexes := Unindexed(c, s, k)), k, v, e)
    else CasStored(c, s, k, v, e)
  }

  /** Some key of the write set holds a record newer than the transaction's snapshot. */
  predicate Conflicts(t: Tree, ws: WriteSet, snapshotVersion: nat) {
    exists k <- ws :: k in t && t[k].version > snapshotVersion
  }

  /** One write of a committed transaction, or of a replicated command. */
  function WriteStep(c: Config, s: State, ver: nat, cmd: WalCommand): State {
    match cmd
    case Put(k, v, e) =>
      s.(tree := s.tree[k := DbRecord(v, e, ver)],
         indexes := AddKeys(Unindexed(c, s, k), c.extract(k, v), k),
         cache := Lru.Without(s.cache, k))
    case Delete(k) =>
      s.(tree := s.tree - {k}, indexes := Unindexed(c, s, k), cache := Lru.Without(s.cache, k))
    case TxCommit(_) => s
  }

  function WriteSteps(c: Config, s: State, ver: nat, cmds: seq<WalCommand>): State {
    if cmds == [] then s else WriteStep(c, WriteSteps(c, s, ver, cmds[..|cmds| - 1]), ver, cmds[|cmds| - 1])
  }

  /** Commit of a write set that was listed as `cmds`. */
  function CommitStep(c: Config, s: State, ws: WriteSet, snapshotVersion: nat, cmds: seq<WalCommand>): State {
    if Conflicts(s.tree, ws, snapshotVersion) then s
    else WriteSteps(c, Logged(s, TxCommit(cmds)), s.version + 1, cmds)
  }

  function Evicted(c: Config, s: State, k: string): State {
    s.(tree := s.tree - {k}, indexes := Unindexed(c, s, k))
  }

  function GetStep(c: Config, s: State, now: nat, k: string): State {
    if Lru.Lookup(s.cache, k).Some? then s.(cache := Lru.Touch(s.cache, k))
    else if k in s.tree && IsExpired(s.tree[k].expiresAt, now) then Evicted(c, s, k)
    else s
  }

  function GetAnswer(s: State, now: nat, k: string): Option<Seen> {
    match Lru.Lookup(s.cache, k)
    case Some(v) => Some(Seen(v, None))
    case None => Visible(Find(s.tree, k), now)
  }

  function AllEvicted(c: Config, s: State, ks: seq<string>): State {
    if ks == [] then s else Evicted(c, AllEvicted(c, s, ks[..|ks| - 1]), ks[|ks| - 1])
  }

  function ExpiredKeys(t: Tree, now: nat): set<string> {
    set k | k in t && IsExpired(t[k].expiresAt, now)
  }

  function LiveKeys(t: Tree, now: nat): set<string> {
    set k | k in t && !IsExpired(t[k].expiresAt, now)
  }

  function SweepStep(c: Config, s: State, now: nat): State {
    AllEvicted(c, s, InOrder(ExpiredKeys(s.tree, now)))
  }

  function Records(t: Tree, ks: seq<string>): (r: seq<SnapshotRecord>)
    requires forall i :: 0 <= i < |ks| ==> ks[i] in t
    ensures |r| == |ks|
    ensures forall i :: 0 <= i < |ks| ==> r[i] == SnapshotRecord(ks[i], t[ks[i]])
  {
    seq(|ks|, i requires 0 <= i < |ks| => SnapshotRecord(ks[i], t[ks[i]]))
  }

  /** The unexpired records in key order: what a snapshot file holds. */
  function SnapshotOf(t: Tree, now: nat): seq<SnapshotRecord> {
    assert forall i :: 0 <= i < |InOrder(LiveKeys(t, now))| ==> InOrder(LiveKeys(t, now))[i] in LiveKeys(t, now);
    Records(t, InOrder(LiveKeys(t, now)))
  }

  /** A crash may fall between renaming the snapshot file and truncating the log. */
  function SnapshotStep(s: State, now: nat, truncates: bool): State {
    s.(snapshot := SnapshotOf(s.tree, now), wal := if truncates then [] else s.wal)
  }

  // --- Runs ------------------------------------------------------------------------------------

  datatype Op =
    | OpPut(key: string, value: Bytes, expiresAt: Option<nat>)
    | OpDelete(key: string)
    | OpCas(key: string, expected: Bytes, value: Bytes, expiresAt: Option<nat>)
    | OpCommit(ws: WriteSet, snapshotVersion: nat, cmds: seq<WalCommand>)
    | OpGet(key: string)
    | OpSweep
    | OpSnapshot(truncates: bool)

  /** An operation and the clock reading it works with. */
  datatype Event = At(now: nat, op: Op)

  ghost predicate Proper(op: Op) {
    op.OpCommit? ==> Lists(op.cmds, op.ws)
  }

  function Exec(c: Config, s: State, ev: Event): State {
    match ev.op
    case OpPut(k, v, e) => PutStep(c, s, k, v, e)
    case OpDelete(k) => DeleteStep(c, s, k)
    case OpCas(k, expected, v, e) => CasStep(c, s, ev.now, k, expected, v, e)
    case OpCommit(ws, snap, cmds) => CommitStep(c, s, ws, snap, cmds)
    case OpGet(k) => GetStep(c, s, ev.now, k)
    case OpSweep => SweepStep(c, s, ev.now)
    case OpSnapshot(truncates) => SnapshotStep(s, ev.now, truncates)
  }

  function Run(c: Config, s: State, evs: seq<Event>): State {
    if evs == [] then s else Exec(c, Run(c, s, evs[..|evs| - 1]), evs[|evs| - 1])
  }

  lemma RunSnoc(c: Config, s: State, evs: seq<Event>, n: nat)
    requires n < |evs|
    ensures Run(c, s, evs[..n + 1]) == Exec(c, Run(c, s, evs[..n]), evs[n])
  {
    assert evs[..n + 1][..n] == evs[..n];
  }

  /** Proper operations under a clock that never goes back. */
  ghost predicate Timely(evs: seq<Event>) {
    && (forall i :: 0 <= i < |evs| ==> Proper(evs[i].op))
    && (forall i, j :: 0 <= i < j < |evs| ==> evs[i].now <= evs[j].now)
  }

  /** The clock when a run ends. */
  function Clock(evs: seq<Event>): nat {
    if evs == [] then 0 else evs[|evs| - 1].now
  }
}
