/**
 Records, the ordered tree as a map, logged commands, and what a log means: the tree that
 applying its commands in order produces.
 */
module Store {
  import opened Prelude

  newtype byte = x: int | 0 <= x < 256
  type Bytes = seq<byte>

  datatype DbRecord = DbRecord(value: Bytes, expiresAt: Option<nat>, version: nat)

  type Tree = map<string, DbRecord>

  predicate IsExpired(expiresAt: Option<nat>, now: nat) {
    expiresAt.Some? && now > expiresAt.value
  }

  function Find(t: Tree, k: string): Option<DbRecord> {
    if k in t then Some(t[k]) else None
  }

  lemma TreesEqual(t: Tree, t': Tree)
    requires forall k :: Find(t, k) == Find(t', k)
    ensures t == t'
  {
    forall k ensures k in t <==> k in t' && (k in t ==> t[k] == t'[k]) {
      assert Find(t, k) == Find(t', k);
    }
  }

  // --- What clients can see -------------------------------------------------------------------

  datatype Seen = Seen(value: Bytes, expiresAt: Option<nat>)

  /** A record as clients see it: its version is internal, and an expired one is absent. */
  function Visible(r: Option<DbRecord>, now: nat): Option<Seen> {
    if r.Some? && !IsExpired(r.value.expiresAt, now) then Some(Seen(r.value.value, r.value.expiresAt)) else None
  }

  /** A record can be seen up to and including the millisecond of its expiry. */
  lemma VisibleUntil(r: DbRecord, now: nat)
    ensures Visible(Some(r), now) ==
            if r.expiresAt == None || now <= r.expiresAt.value then Some(Seen(r.value, r.expiresAt)) else None
  {
  }

  /** The unexpired view of a tree. */
  function View(t: Tree, now: nat): map<string, Seen> {
    map k | k in t && !IsExpired(t[k].expiresAt, now) :: Seen(t[k].value, t[k].expiresAt)
  }

  lemma ViewAt(t: Tree, now: nat, k: string)
    ensures k in View(t, now) <==> Visible(Find(t, k), now).Some?
    ensures k in View(t, now) ==> Some(View(t, now)[k]) == Visible(Find(t, k), now)
  {
  }

  lemma ViewsEqual(t: Tree, t': Tree, now: nat)
    ensures View(t, now) == View(t', now) <==> forall k :: Visible(Find(t, k), now) == Visible(Find(t', k), now)
  {
    if View(t, now) == View(t', now) {
      forall k ensures Visible(Find(t, k), now) == Visible(Find(t', k), now) {
        ViewAt(t, now, k);
        ViewAt(t', now, k);
      }
    }
    if forall k :: Visible(Find(t, k), now) == Visible(Find(t', k), now) {
      forall k ensures k in View(t, now) <==> k in View(t', now)
               ensures k in View(t, now) ==> View(t, now)[k] == View(t', now)[k]
      {
        ViewAt(t, now, k);
        ViewAt(t', now, k);
        assert Visible(Find(t, k), now) == Visible(Find(t', k), now);
      }
    }
  }

  // --- Logged commands ---------------------------------------------------------------------------

  datatype WalCommand =
    | Put(key: string, value: Bytes, expiresAt: Option<nat>)
    | Delete(key: string)
    | TxCommit(cmds: seq<WalCommand>)

  datatype LogEntry = LogEntry(id: nat, cmd: WalCommand)

  /** Ids count from one without gaps. */
  ghost predicate Consecutive(log: seq<LogEntry>) {
    forall i :: 0 <= i < |log| ==> log[i].id == i + 1
  }

  /** A command inside a transaction; a nested transaction is ignored. */
  function ApplyOne(t: Tree, id: nat, c: WalCommand): Tree {
    match c
    case Put(k, v, e) => t[k := DbRecord(v, e, id)]
    case Delete(k) => t - {k}
    case TxCommit(_) => t
  }

  function ApplyAll(t: Tree, id: nat, cs: seq<WalCommand>): Tree {
    if cs == [] then t else ApplyOne(ApplyAll(t, id, cs[..|cs| - 1]), id, cs[|cs| - 1])
  }

  function Apply(t: Tree, e: LogEntry): Tree {
    if e.cmd.TxCommit? then ApplyAll(t, e.id, e.cmd.cmds) else ApplyOne(t, e.id, e.cmd)
  }

  /** The tree that a log describes. */
  function Fold(log: seq<LogEntry>): Tree {
    if log == [] then map[] else Apply(Fold(log[..|log| - 1]), log[|log| - 1])
  }

  // --- What a log says about one key -----------------------------------------------------------------

  datatype Write = Stored(value: Bytes, expiresAt: Option<nat>) | Removed

  function WriteOne(c: WalCommand, k: string): Option<Write> {
    match c
    case Put(k', v, e) => if k == k' then Some(Stored(v, e)) else None
    case Delete(k') => if k == k' then Some(Removed) else None
    case TxCommit(_) => None
  }

  function WriteAll(cs: seq<WalCommand>, k: string): Option<Write> {
    if cs == [] then None
    else
      var last := WriteOne(cs[|cs| - 1], k);
      if last.Some? then last else WriteAll(cs[..|cs| - 1], k)
  }

  /** What a logged command does to a key, if anything. */
  function WriteOf(c: WalCommand, k: string): Option<Write> {
    if c.TxCommit? then WriteAll(c.cmds, k) else WriteOne(c, k)
  }

  /** The last entry that writes a key. */
  function LastWrite(log: seq<LogEntry>, k: string): Option<(nat, Write)> {
    if log == [] then None
    else
      var e := log[|log| - 1];
      var w := WriteOf(e.cmd, k);
      if w.Some? then Some((e.id, w.value)) else LastWrite(log[..|log| - 1], k)
  }

  function Written(w: Write, id: nat): Option<DbRecord> {
    if w.Stored? then Some(DbRecord(w.value, w.expiresAt, id)) else None
  }

  lemma {:induction false} ApplyAllAt(t: Tree, id: nat, cs: seq<WalCommand>, k: string)
    ensures Find(ApplyAll(t, id, cs), k) ==
            match WriteAll(cs, k) case None => Find(t, k) case Some(w) => Written(w, id)
  {
    if cs != [] {
      ApplyAllAt(t, id, cs[..|cs| - 1], k);
    }
  }

  lemma ApplyAt(t: Tree, e: LogEntry, k: string)
    ensures Find(Apply(t, e), k) ==
            match WriteOf(e.cmd, k) case None => Find(t, k) case Some(w) => Written(w, e.id)
  {
    if e.cmd.TxCommit? {
      ApplyAllAt(t, e.id, e.cmd.cmds, k);
    }
  }

  lemma {:induction false} FoldAt(log: seq<LogEntry>, k: string)
    ensures Find(Fold(log), k) ==
            match LastWrite(log, k) case None => None case Some((id, w)) => Written(w, id)
  {
    if log != [] {
      ApplyAt(Fold(log[..|log| - 1]), log[|log| - 1], k);
      FoldAt(log[..|log| - 1], k);
    }
  }

  lemma FoldSnoc(log: seq<LogEntry>, e: LogEntry)
    ensures Fold(log + [e]) == Apply(Fold(log), e)
  {
    assert (log + [e])[..|log|] == log;
  }

  lemma LastWriteSnoc(log: seq<LogEntry>, e: LogEntry, k: string)
    ensures LastWrite(log + [e], k) ==
            match WriteOf(e.cmd, k) case None => LastWrite(log, k) case Some(w) => Some((e.id, w))
  {
    assert (log + [e])[..|log|] == log;
  }

  // --- Write sets and their listings ---------------------------------------------------------------------

  type WriteSet = map<string, Write>

  function Command(k: string, w: Write): WalCommand {
    if w.Stored? then Put(k, w.value, w.expiresAt) else Delete(k)
  }

  /** `cs` lists the writes of a transaction, one command per key, in some order. */
  ghost predicate Lists(cs: seq<WalCommand>, ws: WriteSet) {
    && (forall i :: 0 <= i < |cs| ==> !cs[i].TxCommit? && cs[i].key in ws && cs[i] == Command(cs[i].key, ws[cs[i].key]))
    && (forall k <- ws :: exists i :: 0 <= i < |cs| && cs[i].key == k)
    && (forall i, j :: 0 <= i < j < |cs| && !cs[i].TxCommit? && !cs[j].TxCommit? ==> cs[i].key != cs[j].key)
  }

  lemma {:induction false} WriteAllAbsent(cs: seq<WalCommand>, k: string)
    requires forall i :: 0 <= i < |cs| ==> WriteOne(cs[i], k) == None
    ensures WriteAll(cs, k) == None
  {
    if cs != [] {
      WriteAllAbsent(cs[..|cs| - 1], k);
    }
  }

  lemma {:induction false} WriteAllUnique(cs: seq<WalCommand>, k: string, i: nat)
    requires i < |cs| && WriteOne(cs[i], k).Some?
    requires forall j :: 0 <= j < |cs| && j != i ==> WriteOne(cs[j], k) == None
    ensures WriteAll(cs, k) == WriteOne(cs[i], k)
  {
    if i < |cs| - 1 {
      WriteAllUnique(cs[..|cs| - 1], k, i);
    }
  }

  lemma ListedWrite(cs: seq<WalCommand>, ws: WriteSet, k: string)
    requires Lists(cs, ws)
    ensures WriteAll(cs, k) == if k in ws then Some(ws[k]) else None
  {
    if k in ws {
      var i :| 0 <= i < |cs| && cs[i].key == k;
      WriteAllUnique(cs, k, i);
    } else {
      WriteAllAbsent(cs, k);
    }
  }

  /** Applying a transaction does not depend on the order in which its write set was listed. */
  lemma ListingIrrelevant(t: Tree, id: nat, cs: seq<WalCommand>, cs': seq<WalCommand>, ws: WriteSet)
    requires Lists(cs, ws) && Lists(cs', ws)
    ensures ApplyAll(t, id, cs) == ApplyAll(t, id, cs')
  {
    forall k ensures Find(ApplyAll(t, id, cs), k) == Find(ApplyAll(t, id, cs'), k) {
      ApplyAllAt(t, id, cs, k);
      ApplyAllAt(t, id, cs', k);
      ListedWrite(cs, ws, k);
      ListedWrite(cs', ws, k);
    }
    TreesEqual(ApplyAll(t, id, cs), ApplyAll(t, id, cs'));
  }

  // --- Trees that lag behind a log by evictions only --------------------------------------------------------

  /** `t` is the logged tree without some of its expired records: what lazy and periodic
      eviction, which are not logged, may leave. */
  ghost predicate Trails(t: Tree, logged: Tree, now: nat) {
    forall k :: Find(t, k) == Find(logged, k) ||
                (k !in t && k in logged && IsExpired(logged[k].expiresAt, now))
  }

  lemma TrailsLater(t: Tree, logged: Tree, now: nat, later: nat)
    requires Trails(t, logged, now) && now <= later
    ensures Trails(t, logged, later)
  {
  }

  lemma TrailsSameView(t: Tree, logged: Tree, now: nat)
    requires Trails(t, logged, now)
    ensures View(t, now) == View(logged, now)
  {
    forall k ensures Visible(Find(t, k), now) == Visible(Find(logged, k), now) {
      assert Find(t, k) == Find(logged, k) || (k !in t && k in logged && IsExpired(logged[k].expiresAt, now));
    }
    ViewsEqual(t, logged, now);
  }

  lemma TrailsApply(t: Tree, logged: Tree, now: nat, e: LogEntry)
    requires Trails(t, logged, now)
    ensures Trails(Apply(t, e), Apply(logged, e), now)
  {
    forall k ensures Find(Apply(t, e), k) == Find(Apply(logged, e), k) ||
      (k !in Apply(t, e) && k in Apply(logged, e) && IsExpired(Apply(logged, e)[k].expiresAt, now))
    {
      ApplyAt(t, e, k);
      ApplyAt(logged, e, k);
      assert Find(t, k) == Find(logged, k) || (k !in t && k in logged && IsExpired(logged[k].expiresAt, now));
    }
  }
}
