/**
 Whole runs of the server and the log: ids are consecutive, the tree is the log's tree less
 some expired records, the first committer wins, and evictions cannot be observed.
 */
module History {
  import opened Prelude
  import opened Ordered
  import opened Store
  import opened Server
  import Lru = LruSpec

  // --- What each step does to the tree and the log --------------------------------------------

  lemma {:induction false} WriteStepsFrame(c: Config, s: State, ver: nat, cmds: seq<WalCommand>)
    ensures var s' := WriteSteps(c, s, ver, cmds);
            s'.tree == ApplyAll(s.tree, ver, cmds) && s'.version == s.version && s'.wal == s.wal &&
            s'.snapshot == s.snapshot && s'.sent == s.sent
  {
    if cmds != [] {
      WriteStepsFrame(c, s, ver, cmds[..|cmds| - 1]);
    }
  }

  lemma {:induction false} AllEvictedFrame(c: Config, s: State, ks: seq<string>)
    ensures var s' := AllEvicted(c, s, ks);
            s' == s.(tree := s'.tree, indexes := s'.indexes) && s'.tree == s.tree - (set k | k in ks)
  {
    if ks == [] {
      assert s.tree - (set k | k in ks) == s.tree;
    } else {
      AllEvictedFrame(c, s, ks[..|ks| - 1]);
      assert ks == ks[..|ks| - 1] + [ks[|ks| - 1]];
    }
  }

  lemma SweepFrame(c: Config, s: State, now: nat)
    ensures var s' := SweepStep(c, s, now);
            s' == s.(tree := s'.tree, indexes := s'.indexes) && s'.tree == s.tree - ExpiredKeys(s.tree, now)
  {
    var ks := InOrder(ExpiredKeys(s.tree, now));
    AllEvictedFrame(c, s, ks);
    assert (set k | k in ks) == ExpiredKeys(s.tree, now);
  }

  /** The command a step logs, if it logs one. */
  function Announces(s: State, ev: Event): Option<WalCommand> {
    match ev.op
    case OpPut(k, v, e) => Some(Put(k, v, e))
    case OpDelete(k) => if k in s.tree then Some(Delete(k)) else None
    case OpCas(k, expected, v, e) => if CasSucceeds(s.tree, ev.now, k, expected) then Some(Put(k, v, e)) else None
    case OpCommit(ws, snap, cmds) => if Conflicts(s.tree, ws, snap) then None else Some(TxCommit(cmds))
    case _ => None
  }

  /** The step applies and logs `cmd` under the next version. */
  ghost predicate Advances(s: State, s': State, cmd: WalCommand) {
    var e := LogEntry(s.version + 1, cmd);
    && s'.tree == Apply(s.tree, e) && s'.version == s.version + 1
    && s'.sent == s.sent + [e] && s'.wal == s.wal + [e] && s'.snapshot == s.snapshot
  }

  /** The step logs nothing and can only drop expired records. */
  ghost predicate OnlyDrops(s: State, s': State, ev: Event) {
    && Trails(s'.tree, s.tree, ev.now) && s'.version == s.version && s'.sent == s.sent
    && (ev.op.OpSnapshot? || (s'.wal == s.wal && s'.snapshot == s.snapshot))
  }

  /** A step that logs applies exactly what it logs, under the next version; any other step
      can only drop expired records. */
  lemma ExecEffect(c: Config, s: State, ev: Event)
    ensures match Announces(s, ev)
            case Some(cmd) => Advances(s, Exec(c, s, ev), cmd)
            case None => OnlyDrops(s, Exec(c, s, ev), ev)
  {
    if Announces(s, ev).Some? {
      ExecAdvances(c, s, ev);
    } else {
      ExecDrops(c, s, ev);
    }
  }

  lemma ExecAdvances(c: Config, s: State, ev: Event)
    requires Announces(s, ev).Some?
    ensures Advances(s, Exec(c, s, ev), Announces(s, ev).value)
  {
    if ev.op.OpCommit? {
      WriteStepsFrame(c, Logged(s, TxCommit(ev.op.cmds)), s.version + 1, ev.op.cmds);
    }
  }

  lemma TrailsDropped(t: Tree, ks: set<string>, now: nat)
    requires forall k <- ks :: k in t ==> IsExpired(t[k].expiresAt, now)
    ensures Trails(t - ks, t, now)
  {
  }

  lemma ExecDrops(c: Config, s: State, ev: Event)
    requires Announces(s, ev).None?
    ensures OnlyDrops(s, Exec(c, s, ev), ev)
  {
    match ev.op
    case OpGet(k) =>
      if Exec(c, s, ev).tree != s.tree {
        TrailsDropped(s.tree, {k}, ev.now);
      }
    case OpSweep =>
      SweepFrame(c, s, ev.now);
      TrailsDropped(s.tree, ExpiredKeys(s.tree, ev.now), ev.now);
    case _ =>
  }

  // --- What each step leaves under each key --------------------------------------------------------

  /** The value clients see, a missing one being empty, is the expected one. */
  predicate Expected(seen: Option<Seen>, expected: Bytes) {
    expected == match seen case Some(x) => x.value case None => []
  }

  /** The write of a key that a step carries out.  CAS goes by what clients see, commit by the
      versions of all keys it writes. */
  ghost function Writes(s: State, ev: Event, k: string): Option<Write> {
    match ev.op
    case OpPut(k1, v, e) => if k == k1 then Some(Stored(v, e)) else None
    case OpDelete(k1) => if k == k1 then Some(Removed) else None
    case OpCas(k1, expected, v, e) =>
      if k == k1 && Expected(Visible(Find(s.tree, k), ev.now), expected) then Some(Stored(v, e)) else None
    case OpCommit(ws, snap, _) =>
      if k in ws && forall x <- ws :: x in s.tree ==> s.tree[x].version <= snap then Some(ws[k]) else None
    case _ => None
  }

  /** The step takes the record of the key away because it has expired: a sweep does so to every
      expired record, a get to that of its own key unless the cache answers it. */
  ghost predicate Removes(s: State, ev: Event, k: string) {
    && (ev.op.OpSweep? || (ev.op == OpGet(k) && Lru.Lookup(s.cache, k).None?))
    && Visible(Find(s.tree, k), ev.now).None?
  }

  lemma CommitTree(c: Config, s: State, ws: WriteSet, cmds: seq<WalCommand>, k: string)
    requires Lists(cmds, ws)
    ensures Find(WriteSteps(c, Logged(s, TxCommit(cmds)), s.version + 1, cmds).tree, k) ==
            if k in ws then Written(ws[k], s.version + 1) else Find(s.tree, k)
  {
    WriteStepsFrame(c, Logged(s, TxCommit(cmds)), s.version + 1, cmds);
    ApplyAllAt(s.tree, s.version + 1, cmds, k);
    ListedWrite(cmds, ws, k);
  }

  /** After each step a key has what the step wrote, under the next version, or else what it had,
      unless an expired record is evicted; in particular nothing happens to other keys. */
  lemma StepTree(c: Config, s: State, ev: Event, k: string)
    requires Proper(ev.op)
    ensures Find(Exec(c, s, ev).tree, k) ==
            match Writes(s, ev, k)
            case Some(w) => Written(w, s.version + 1)
            case None => if Removes(s, ev, k) then None else Find(s.tree, k)
  {
    match ev.op
    case OpCommit(ws, snap, cmds) => CommitTree(c, s, ws, cmds, k);
    case OpSweep => SweepFrame(c, s, ev.now);
    case _ =>
  }

  // --- Consecutive ids ---------------------------------------------------------------------------

  /** Ids count from one without gaps, and the log file is the tail of everything announced. */
  ghost predicate Numbered(s: State) {
    && s.version == |s.sent|
    && Consecutive(s.sent)
    && |s.wal| <= |s.sent| && s.wal == s.sent[|s.sent| - |s.wal|..]
  }

  lemma ExecNumbered(c: Config, s: State, ev: Event)
    requires Numbered(s)
    ensures Numbered(Exec(c, s, ev))
  {
    ExecEffect(c, s, ev);
    var s' := Exec(c, s, ev);
    if Announces(s, ev).Some? {
      var n := |s.sent| - |s.wal|;
      assert (s.sent + [s'.sent[|s.sent|]])[n..] == s.sent[n..] + [s'.sent[|s.sent|]];
    }
  }

  lemma {:induction false} RunNumbered(c: Config, evs: seq<Event>)
    ensures Numbered(Run(c, FRESH, evs))
  {
    if evs != [] {
      RunNumbered(c, evs[..|evs| - 1]);
      ExecNumbered(c, Run(c, FRESH, evs[..|evs| - 1]), evs[|evs| - 1]);
    }
  }

  // --- The tree and the log ------------------------------------------------------------------------

  lemma TimelyPrefix(evs: seq<Event>)
    requires Timely(evs) && evs != []
    ensures Timely(evs[..|evs| - 1]) && Clock(evs[..|evs| - 1]) <= Clock(evs) == evs[|evs| - 1].now
    ensures Proper(evs[|evs| - 1].op)
  {
  }

  lemma TrailsCompose(t: Tree, mid: Tree, logged: Tree, now: nat)
    requires Trails(t, mid, now) && Trails(mid, logged, now)
    ensures Trails(t, logged, now)
  {
    forall k ensures Find(t, k) == Find(logged, k) ||
                     (k !in t && k in logged && IsExpired(logged[k].expiresAt, now)) {
      assert Find(t, k) == Find(mid, k) || (k !in t && k in mid && IsExpired(mid[k].expiresAt, now));
      assert Find(mid, k) == Find(logged, k) || (k !in mid && k in logged && IsExpired(logged[k].expiresAt, now));
    }
  }

  /** Main invariant: after every run the tree is the fold of everything logged, less some
      records that have expired. */
  lemma {:induction false} RunTrails(c: Config, evs: seq<Event>)
    requires Timely(evs)
    ensures var s := Run(c, FRESH, evs); Trails(s.tree, Fold(s.sent), Clock(evs))
  {
    if evs != [] {
      TimelyPrefix(evs);
      var before, ev := evs[..|evs| - 1], evs[|evs| - 1];
      RunTrails(c, before);
      var s := Run(c, FRESH, before);
      var s' := Exec(c, s, ev);
      TrailsLater(s.tree, Fold(s.sent), Clock(before), ev.now);
      ExecEffect(c, s, ev);
      if Announces(s, ev).Some? {
        var e := LogEntry(s.version + 1, Announces(s, ev).value);
        TrailsApply(s.tree, Fold(s.sent), ev.now, e);
        FoldSnoc(s.sent, e);
      } else {
        TrailsCompose(s'.tree, s.tree, Fold(s.sent), ev.now);
      }
    }
  }

  /** So clients see exactly what the log says. */
  lemma RunView(c: Config, evs: seq<Event>)
    requires Timely(evs)
    ensures var s := Run(c, FRESH, evs); View(s.tree, Clock(evs)) == View(Fold(s.sent), Clock(evs))
  {
    RunTrails(c, evs);
    var s := Run(c, FRESH, evs);
    TrailsSameView(s.tree, Fold(s.sent), Clock(evs));
  }

  // --- First committer wins -------------------------------------------------------------------------

  lemma {:induction false} LastWriteIsLast(log: seq<LogEntry>, k: string, i: nat)
    requires Consecutive(log)
    requires i < |log| && WriteOf(log[i].cmd, k).Some?
    ensures LastWrite(log, k).Some? && LastWrite(log, k).value.0 >= log[i].id
  {
    var last := |log| - 1;
    if i < last && WriteOf(log[last].cmd, k).None? {
      LastWriteIsLast(log[..last], k, i);
    }
  }

  /** A record in the tree carries the id of the last logged write of its key, which is a Put
      of its value; an absent key was never written, was deleted last, or has expired. */
  lemma RecordIsLastWrite(c: Config, evs: seq<Event>, k: string)
    requires Timely(evs)
    ensures var s := Run(c, FRESH, evs);
            var last := LastWrite(s.sent, k);
            match Find(s.tree, k)
            case Some(r) => last == Some((r.version, Stored(r.value, r.expiresAt))) && r.version <= s.version
            case None => last.None? || last.value.1.Removed? || IsExpired(last.value.1.expiresAt, Clock(evs))
  {
    RunTrails(c, evs);
    RunNumbered(c, evs);
    var s := Run(c, FRESH, evs);
    TrailingRecord(s.tree, s.sent, Clock(evs), k);
    LastWriteBound(s.sent, k);
  }

  lemma TrailingRecord(t: Tree, log: seq<LogEntry>, now: nat, k: string)
    requires Trails(t, Fold(log), now)
    ensures match Find(t, k)
            case Some(r) => LastWrite(log, k) == Some((r.version, Stored(r.value, r.expiresAt)))
            case None =>
              var last := LastWrite(log, k);
              last.None? || last.value.1.Removed? || IsExpired(last.value.1.expiresAt, now)
  {
    FoldAt(log, k);
    assert Find(t, k) == Find(Fold(log), k) ||
      (k !in t && k in Fold(log) && IsExpired(Fold(log)[k].expiresAt, now));
  }

  lemma {:induction false} LastWriteBound(log: seq<LogEntry>, k: string)
    requires Consecutive(log)
    ensures LastWrite(log, k).Some? ==> LastWrite(log, k).value.0 <= |log|
  {
    if log != [] {
      LastWriteBound(log[..|log| - 1], k);
    }
  }

  /** Main theorem: when a transaction with snapshot `snap` can commit after a run, every key
      it writes that was written after `snap` has since been removed: its last write is a
      Delete or a Put that has expired. */
  lemma FirstCommitterWins(c: Config, evs: seq<Event>, ws: WriteSet, snap: nat, k: string, i: nat)
    requires Timely(evs) && k in ws
    requires var s := Run(c, FRESH, evs);
             !Conflicts(s.tree, ws, snap) && i < |s.sent| && s.sent[i].id > snap && WriteOf(s.sent[i].cmd, k).Some?
    ensures var last := LastWrite(Run(c, FRESH, evs).sent, k);
            last.Some? && last.value.0 > snap &&
            (last.value.1.Removed? || IsExpired(last.value.1.expiresAt, Clock(evs)))
  {
    RunNumbered(c, evs);
    RecordIsLastWrite(c, evs, k);
    LastWriteIsLast(Run(c, FRESH, evs).sent, k, i);
  }

  /** Conversely, a key whose last write is newer than the snapshot and still visible makes
      the commit fail, and the state is left as it was. */
  lemma SecondCommitterFails(c: Config, evs: seq<Event>, ws: WriteSet, snap: nat, cmds: seq<WalCommand>, k: string)
    requires Timely(evs) && k in ws
    requires var last := LastWrite(Run(c, FRESH, evs).sent, k);
             last.Some? && last.value.0 > snap && last.value.1.Stored? &&
             !IsExpired(last.value.1.expiresAt, Clock(evs))
    ensures var s := Run(c, FRESH, evs);
            Conflicts(s.tree, ws, snap) && CommitStep(c, s, ws, snap, cmds) == s
  {
    RecordIsLastWrite(c, evs, k);
  }

  /** A transaction that begins now, with the version counter as its snapshot, has no conflict. */
  lemma NoConflictAtBegin(c: Config, evs: seq<Event>, ws: WriteSet)
    requires Timely(evs)
    ensures var s := Run(c, FRESH, evs); !Conflicts(s.tree, ws, s.version)
  {
    forall k <- ws { RecordIsLastWrite(c, evs, k); }
  }

  /** The exact verdict: a commit fails after a run exactly when a key it writes is still in
      the tree, expired or not, and was last written after the snapshot. */
  lemma ConflictExact(c: Config, evs: seq<Event>, ws: WriteSet, snap: nat)
    requires Timely(evs)
    ensures var s := Run(c, FRESH, evs);
            Conflicts(s.tree, ws, snap) <==>
            exists k <- ws :: k in s.tree && LastWrite(s.sent, k).Some? && LastWrite(s.sent, k).value.0 > snap
  {
    forall k <- ws { RecordIsLastWrite(c, evs, k); }
  }

  /** A blind spot: the check sees only what is in the tree.  After a delete it lets through a
      transaction that began before the key was written and deleted. */
  lemma ConflictCheckMissesRemovedKeys(c: Config, k: string, v: Bytes)
    ensures var evs := [At(0, OpPut(k, v, None)), At(0, OpDelete(k))];
            var s := Run(c, FRESH, evs);
            Timely(evs) && LastWrite(s.sent, k) == Some((2, Removed)) &&
            !Conflicts(s.tree, map[k := Stored(v, None)], 0)
  {
    var evs := [At(0, OpPut(k, v, None)), At(0, OpDelete(k))];
    RunSnoc(c, FRESH, evs, 0);
    RunSnoc(c, FRESH, evs, 1);
    assert evs[..0] == [] && evs[..2] == evs;
    var s1 := Run(c, FRESH, evs[..1]);
    assert s1.sent == [LogEntry(1, Put(k, v, None))];
    LastWriteSnoc(s1.sent, LogEntry(2, Delete(k)), k);
  }

  // --- Eviction is unobservable ----------------------------------------------------------------------

  /** Two trees that clients cannot tell apart at `now` cannot be told apart later. */
  lemma ViewLater(t: Tree, t': Tree, now: nat, later: nat)
    requires View(t, now) == View(t', now) && now <= later
    ensures View(t, later) == View(t', later)
  {
    ViewsEqual(t, t', now);
    forall k ensures Visible(Find(t, k), later) == Visible(Find(t', k), later) {
      assert Visible(Find(t, k), now) == Visible(Find(t', k), now);
    }
    ViewsEqual(t, t', later);
  }

  /** The outcome of a CAS is a function of the unexpired view alone. */
  lemma CasSeesView(t: Tree, now: nat, k: string, expected: Bytes)
    ensures CasSucceeds(t, now, k, expected) <==>
            if k in View(t, now) then View(t, now)[k].value == expected else expected == []
  {
  }

  /** What a logged command makes visible does not depend on the version it is stamped with. */
  lemma ApplySameView(t: Tree, t': Tree, now: nat, e: LogEntry, e': LogEntry)
    requires View(t, now) == View(t', now) && e.cmd == e'.cmd
    ensures View(Apply(t, e), now) == View(Apply(t', e'), now)
  {
    ViewsEqual(t, t', now);
    forall k ensures Visible(Find(Apply(t, e), k), now) == Visible(Find(Apply(t', e'), k), now) {
      ApplyAt(t, e, k);
      ApplyAt(t', e', k);
      assert Visible(Find(t, k), now) == Visible(Find(t', k), now);
    }
    ViewsEqual(Apply(t, e), Apply(t', e'), now);
  }

  predicate Evicts(ev: Event) {
    ev.op.OpGet? || ev.op.OpSweep?
  }

  /** The run without its gets and sweeps. */
  function WithoutEvictions(evs: seq<Event>): seq<Event> {
    if evs == [] then []
    else WithoutEvictions(evs[..|evs| - 1]) + if Evicts(evs[|evs| - 1]) then [] else [evs[|evs| - 1]]
  }

  /** A get or a sweep never changes what is visible, now or later. */
  lemma EvictionKeepsView(c: Config, s: State, ev: Event, later: nat)
    requires Evicts(ev) && ev.now <= later
    ensures View(Exec(c, s, ev).tree, later) == View(s.tree, later)
  {
    ExecEffect(c, s, ev);
    TrailsLater(Exec(c, s, ev).tree, s.tree, ev.now, later);
    TrailsSameView(Exec(c, s, ev).tree, s.tree, later);
  }

  /** A run without gets and sweeps holds exactly the tree its log describes. */
  lemma {:induction false} UnevictedTree(c: Config, evs: seq<Event>)
    requires forall i :: 0 <= i < |evs| ==> !Evicts(evs[i])
    ensures Run(c, FRESH, evs).tree == Fold(Run(c, FRESH, evs).sent)
  {
    if evs != [] {
      UnevictedTree(c, evs[..|evs| - 1]);
      UnevictedStep(c, Run(c, FRESH, evs[..|evs| - 1]), evs[|evs| - 1]);
    }
  }

  lemma UnevictedStep(c: Config, s: State, ev: Event)
    requires !Evicts(ev) && s.tree == Fold(s.sent)
    ensures Exec(c, s, ev).tree == Fold(Exec(c, s, ev).sent)
  {
    if Announces(s, ev).Some? {
      ExecAdvances(c, s, ev);
      FoldSnoc(s.sent, LogEntry(s.version + 1, Announces(s, ev).value));
    }
  }

  lemma {:induction false} WithoutEvictionsFacts(evs: seq<Event>)
    ensures forall i :: 0 <= i < |WithoutEvictions(evs)| ==> !Evicts(WithoutEvictions(evs)[i])
  {
    if evs != [] {
      WithoutEvictionsFacts(evs[..|evs| - 1]);
    }
  }

  /** `k` was last stored after `snap`. */
  predicate StoredAfter(log: seq<LogEntry>, k: string, snap: nat) {
    var last := LastWrite(log, k);
    last.Some? && last.value.1.Stored? && last.value.0 > snap
  }

  /** An operation whose outcome tells an evicted record from an expired one: a delete of an
      evicted record, or a commit that passes because every newer record was evicted. */
  ghost predicate NoticesEviction(s: State, ev: Event) {
    match ev.op
    case OpDelete(k) => k !in s.tree && LastWrite(s.sent, k).Some? && LastWrite(s.sent, k).value.1.Stored?
    case OpCommit(ws, snap, _) => !Conflicts(s.tree, ws, snap) && exists k <- ws :: StoredAfter(s.sent, k, snap)
    case _ => false
  }

  /** Conflicts with the tree a log describes. */
  lemma FoldConflicts(log: seq<LogEntry>, ws: WriteSet, snap: nat)
    ensures Conflicts(Fold(log), ws, snap) <==> exists k <- ws :: StoredAfter(log, k, snap)
  {
    forall k <- ws ensures k in Fold(log) && Fold(log)[k].version > snap <==> StoredAfter(log, k, snap) {
      FoldAt(log, k);
    }
  }

  lemma TrailsConflicts(t: Tree, logged: Tree, now: nat, ws: WriteSet, snap: nat)
    requires Trails(t, logged, now) && Conflicts(t, ws, snap)
    ensures Conflicts(logged, ws, snap)
  {
    var k :| k in ws && k in t && t[k].version > snap;
    assert Find(t, k) == Find(logged, k);
  }

  /** Two servers with the same log, one of which has evicted records: a step has the same
      outcome on both exactly when it does not notice. */
  lemma SameOutcome(s: State, s': State, ev: Event)
    requires s.sent == s'.sent && s'.tree == Fold(s.sent) && Trails(s.tree, Fold(s.sent), ev.now)
    ensures Announces(s, ev) == Announces(s', ev) <==> !NoticesEviction(s, ev)
  {
    match ev.op
    case OpDelete(k) =>
      FoldAt(s.sent, k);
      assert Find(s.tree, k) == Find(s'.tree, k) || (k !in s.tree && k in s'.tree);
    case OpCommit(ws, snap, _) =>
      FoldConflicts(s.sent, ws, snap);
      if Conflicts(s.tree, ws, snap) {
        TrailsConflicts(s.tree, s'.tree, ev.now, ws, snap);
      }
    case OpCas(k, expected, _, _) =>
      TrailsSameView(s.tree, s'.tree, ev.now);
      CasSeesView(s.tree, ev.now, k, expected);
      CasSeesView(s'.tree, ev.now, k, expected);
    case _ =>
  }

  lemma SameLogs(c: Config, s: State, s': State, ev: Event)
    requires s.sent == s'.sent && s.version == s'.version && !Evicts(ev)
    ensures Exec(c, s, ev).sent == Exec(c, s', ev).sent <==> Announces(s, ev) == Announces(s', ev)
  {
    ExecEffect(c, s, ev);
    ExecEffect(c, s', ev);
    if Announces(s, ev).Some? && Announces(s', ev).Some? {
      var n := |s.sent|;
      assert Exec(c, s, ev).sent[n] == LogEntry(s.version + 1, Announces(s, ev).value);
      assert Exec(c, s', ev).sent[n] == LogEntry(s.version + 1, Announces(s', ev).value);
    }
  }

  /** After `n` steps the run has logged what it would have without its gets and sweeps. */
  ghost predicate SameLogAt(c: Config, evs: seq<Event>, n: nat)
    requires n <= |evs|
  {
    Run(c, FRESH, evs[..n]).sent == Run(c, FRESH, WithoutEvictions(evs[..n])).sent
  }

  lemma {:induction false} TimelyTake(evs: seq<Event>, n: nat)
    requires Timely(evs) && n <= |evs|
    ensures Timely(evs[..n]) && (n < |evs| ==> Clock(evs[..n]) <= evs[n].now)
  {
  }

  /** One more step of a run and of the run without evictions. */
  lemma SameLogExec(c: Config, before: seq<Event>, ev: Event)
    requires Timely(before) && Clock(before) <= ev.now && !Evicts(ev)
    requires Run(c, FRESH, before).sent == Run(c, FRESH, WithoutEvictions(before)).sent
    ensures var s, s' := Run(c, FRESH, before), Run(c, FRESH, WithoutEvictions(before));
            Exec(c, s, ev).sent == Exec(c, s', ev).sent <==> !NoticesEviction(s, ev)
  {
    var s, s' := Run(c, FRESH, before), Run(c, FRESH, WithoutEvictions(before));
    RunTrails(c, before);
    TrailsLater(s.tree, Fold(s.sent), Clock(before), ev.now);
    WithoutEvictionsFacts(before);
    UnevictedTree(c, WithoutEvictions(before));
    RunNumbered(c, before);
    RunNumbered(c, WithoutEvictions(before));
    SameOutcome(s, s', ev);
    SameLogs(c, s, s', ev);
  }

  lemma WithoutEvictionsSnoc(evs: seq<Event>, n: nat)
    requires n < |evs|
    ensures WithoutEvictions(evs[..n + 1]) == WithoutEvictions(evs[..n]) + if Evicts(evs[n]) then [] else [evs[n]]
  {
    assert evs[..n + 1][..n] == evs[..n];
  }

  lemma EvictionLogsNothing(c: Config, s: State, ev: Event)
    requires Evicts(ev)
    ensures Exec(c, s, ev).sent == s.sent
  {
    ExecEffect(c, s, ev);
  }

  lemma RunLast(c: Config, evs: seq<Event>, ev: Event)
    ensures Run(c, FRESH, evs + [ev]) == Exec(c, Run(c, FRESH, evs), ev)
  {
    assert (evs + [ev])[..|evs|] == evs;
  }

  lemma SameLogStep(c: Config, evs: seq<Event>, n: nat)
    requires Timely(evs) && n < |evs| && SameLogAt(c, evs, n)
    ensures SameLogAt(c, evs, n + 1) <==> !NoticesEviction(Run(c, FRESH, evs[..n]), evs[n])
  {
    var before, ev := evs[..n], evs[n];
    RunSnoc(c, FRESH, evs, n);
    WithoutEvictionsSnoc(evs, n);
    if Evicts(ev) {
      EvictionLogsNothing(c, Run(c, FRESH, before), ev);
      assert WithoutEvictions(before) + [] == WithoutEvictions(before);
    } else {
      TimelyTake(evs, n);
      RunLast(c, WithoutEvictions(before), ev);
      SameLogExec(c, before, ev);
    }
  }

  ghost predicate NeverNotices(c: Config, evs: seq<Event>) {
    forall n :: 0 <= n < |evs| ==> !NoticesEviction(Run(c, FRESH, evs[..n]), evs[n])
  }

  lemma {:induction false} SameLogUpTo(c: Config, evs: seq<Event>, n: nat)
    requires Timely(evs) && NeverNotices(c, evs) && n <= |evs|
    ensures SameLogAt(c, evs, n)
  {
    if n > 0 {
      SameLogUpTo(c, evs, n - 1);
      SameLogStep(c, evs, n - 1);
    }
  }

  /** Main theorem: under a clock that never goes back, a run logs throughout what it would
      without its gets and sweeps, so that every put, delete, CAS and commit has the same
      outcome, exactly when none of its operations notices an eviction. */
  lemma EvictionUnobservable(c: Config, evs: seq<Event>)
    requires Timely(evs)
    ensures (forall n :: 0 <= n <= |evs| ==> SameLogAt(c, evs, n)) <==> NeverNotices(c, evs)
  {
    if NeverNotices(c, evs) {
      forall n | 0 <= n <= |evs| ensures SameLogAt(c, evs, n) { SameLogUpTo(c, evs, n); }
    } else {
      var n :| 0 <= n < |evs| && NoticesEviction(Run(c, FRESH, evs[..n]), evs[n]);
      if SameLogAt(c, evs, n) {
        SameLogStep(c, evs, n);
        assert !SameLogAt(c, evs, n + 1);
      }
    }
  }

  /** And where the logs agree, clients see the same. */
  lemma SameLogSameView(c: Config, evs: seq<Event>)
    requires Timely(evs) && SameLogAt(c, evs, |evs|)
    ensures View(Run(c, FRESH, evs).tree, Clock(evs)) == View(Run(c, FRESH, WithoutEvictions(evs)).tree, Clock(evs))
  {
    assert evs[..|evs|] == evs;
    RunView(c, evs);
    WithoutEvictionsFacts(evs);
    UnevictedTree(c, WithoutEvictions(evs));
  }

  /** A sweep changes the verdict of a commit exactly when all the
      records in conflict have expired. */
  lemma SweepChangesVerdict(c: Config, s: State, now: nat, ws: WriteSet, snap: nat)
    requires Conflicts(s.tree, ws, snap)
    ensures !Conflicts(SweepStep(c, s, now).tree, ws, snap) <==>
            forall k <- ws :: k in s.tree && s.tree[k].version > snap ==> IsExpired(s.tree[k].expiresAt, now)
  {
    SweepFrame(c, s, now);
  }

  /** A delete reports success exactly when the record is still in the tree, so it tells an
      expired record from an evicted one. */
  lemma DeleteTellsEvicted(c: Config, s: State, now: nat, k: string)
    ensures (k in s.tree <==> k in SweepStep(c, s, now).tree) <==> k !in ExpiredKeys(s.tree, now)
  {
    SweepFrame(c, s, now);
  }

  /** A run in which both happen: a record with a TTL expires and is swept.  Before the sweep
      a commit begun at the start fails and a delete succeeds, afterwards it is the reverse. */
  lemma SweepNoticed(c: Config, k: string, v: Bytes, w: Write)
    ensures var evs := [At(0, OpPut(k, v, Some(5))), At(9, OpSweep)];
            var s, s' := Run(c, FRESH, evs[..1]), Run(c, FRESH, evs);
            && Timely(evs)
            && Conflicts(s.tree, map[k := w], 0) && !Conflicts(s'.tree, map[k := w], 0)
            && k in s.tree && k !in s'.tree
            && NoticesEviction(s', At(9, OpDelete(k)))
  {
    var evs := [At(0, OpPut(k, v, Some(5))), At(9, OpSweep)];
    RunSnoc(c, FRESH, evs, 0);
    RunSnoc(c, FRESH, evs, 1);
    assert evs[..0] == [] && evs[..2] == evs;
    var s := Run(c, FRESH, evs[..1]);
    SweepFrame(c, s, 9);
    assert s.sent == [LogEntry(1, Put(k, v, Some(5)))];
    assert k in map[k := w];
  }
}
