/**
 The secondary indexes over whole runs: when they hold exactly the current records, and when
 they merely hold at least those.
 */
module IndexRuns {
  import opened Prelude
  import opened Ordered
  import opened Store
  import opened Indexes
  import opened Server

  /** The tree holds a record for `k` that extracts `ik`. */
  predicate Files(c: Config, t: Tree, ik: string, k: string) {
    k in t && ik in c.extract(k, t[k].value)
  }

  /** A key is in an index set exactly when its current record extracts that index key. */
  ghost predicate Exact(c: Config, t: Tree, ix: Indexes) {
    forall ik, k :: InIndex(ix, ik, k) <==> Files(c, t, ik, k)
  }

  /** No current record is missing from an index set. */
  ghost predicate Complete(c: Config, t: Tree, ix: Indexes) {
    forall ik, k :: Files(c, t, ik, k) ==> InIndex(ix, ik, k)
  }

  // --- Single updates --------------------------------------------------------------------------

  lemma UnindexedAt(c: Config, s: State, k: string, ik: string, k': string)
    ensures InIndex(Unindexed(c, s, k), ik, k') <==> InIndex(s.indexes, ik, k') && !(k' == k && Files(c, s.tree, ik, k))
    ensures Unindexed(c, s, k).Keys == s.indexes.Keys
  {
    if k in s.tree {
      RemoveKeysAt(s.indexes, c.extract(k, s.tree[k].value), k, ik, k');
      RemoveKeysDomain(s.indexes, c.extract(k, s.tree[k].value), k);
    }
  }

  lemma RemoveUpdate(c: Config, s: State, k: string)
    ensures Exact(c, s.tree, s.indexes) ==> Exact(c, s.tree - {k}, Unindexed(c, s, k))
    ensures Complete(c, s.tree, s.indexes) ==> Complete(c, s.tree - {k}, Unindexed(c, s, k))
  {
    forall ik, k' { UnindexedAt(c, s, k, ik, k'); }
  }

  lemma AddUpdate(c: Config, t: Tree, ix: Indexes, k: string, r: DbRecord)
    ensures k !in t && Exact(c, t, ix) ==> Exact(c, t[k := r], AddKeys(ix, c.extract(k, r.value), k))
    ensures Complete(c, t, ix) ==> Complete(c, t[k := r], AddKeys(ix, c.extract(k, r.value), k))
  {
    forall ik, k' ensures InIndex(AddKeys(ix, c.extract(k, r.value), k), ik, k') <==>
                          InIndex(ix, ik, k') || (k' == k && ik in c.extract(k, r.value)) {
      AddKeysAt(ix, c.extract(k, r.value), k, ik, k');
    }
  }

  /** Unindexing the old record and indexing the new one, as put, live CAS, commit and
      replicated writes do. */
  lemma ReplaceUpdate(c: Config, s: State, k: string, r: DbRecord)
    ensures var ix := AddKeys(Unindexed(c, s, k), c.extract(k, r.value), k);
            && (Exact(c, s.tree, s.indexes) ==> Exact(c, s.tree[k := r], ix))
            && (Complete(c, s.tree, s.indexes) ==> Complete(c, s.tree[k := r], ix))
  {
    RemoveUpdate(c, s, k);
    AddUpdate(c, s.tree - {k}, Unindexed(c, s, k), k, r);
    assert (s.tree - {k})[k := r] == s.tree[k := r];
  }

  lemma {:induction false} WriteStepsIndexes(c: Config, s: State, ver: nat, cmds: seq<WalCommand>)
    ensures var s' := WriteSteps(c, s, ver, cmds);
            && (Exact(c, s.tree, s.indexes) ==> Exact(c, s'.tree, s'.indexes))
            && (Complete(c, s.tree, s.indexes) ==> Complete(c, s'.tree, s'.indexes))
  {
    if cmds != [] {
      WriteStepsIndexes(c, s, ver, cmds[..|cmds| - 1]);
      var s', cmd := WriteSteps(c, s, ver, cmds[..|cmds| - 1]), cmds[|cmds| - 1];
      match cmd
      case Put(k, v, e) => ReplaceUpdate(c, s', k, DbRecord(v, e, ver));
      case Delete(k) => RemoveUpdate(c, s', k);
      case TxCommit(_) =>
    }
  }

  lemma {:induction false} AllEvictedIndexes(c: Config, s: State, ks: seq<string>)
    ensures var s' := AllEvicted(c, s, ks);
            && (Exact(c, s.tree, s.indexes) ==> Exact(c, s'.tree, s'.indexes))
            && (Complete(c, s.tree, s.indexes) ==> Complete(c, s'.tree, s'.indexes))
  {
    if ks != [] {
      AllEvictedIndexes(c, s, ks[..|ks| - 1]);
      RemoveUpdate(c, AllEvicted(c, s, ks[..|ks| - 1]), ks[|ks| - 1]);
    }
  }

  // --- Steps and runs -----------------------------------------------------------------------------

  /** A CAS that replaces an expired record some of whose index keys its new value lacks. */
  ghost predicate LeavesStale(c: Config, s: State, ev: Event) {
    && ev.op.OpCas? && ev.op.key in s.tree && IsExpired(s.tree[ev.op.key].expiresAt, ev.now)
    && ev.op.expected == []
    && exists ik <- c.extract(ev.op.key, s.tree[ev.op.key].value) :: ik !in c.extract(ev.op.key, ev.op.value)
  }

  lemma CasOverExpired(c: Config, s: State, ev: Event)
    requires Exact(c, s.tree, s.indexes) && ev.op.OpCas? && ev.op.expected == []
    requires ev.op.key in s.tree && IsExpired(s.tree[ev.op.key].expiresAt, ev.now)
    ensures var s' := Exec(c, s, ev); Exact(c, s'.tree, s'.indexes) <==> !LeavesStale(c, s, ev)
  {
    var k, s' := ev.op.key, Exec(c, s, ev);
    forall ik, k' ensures InIndex(s'.indexes, ik, k') <==>
                          Files(c, s.tree, ik, k') || (k' == k && ik in c.extract(k, ev.op.value)) {
      AddKeysAt(s.indexes, c.extract(k, ev.op.value), k, ik, k');
    }
    if LeavesStale(c, s, ev) {
      var ik :| ik in c.extract(k, s.tree[k].value) && ik !in c.extract(k, ev.op.value);
      assert InIndex(s'.indexes, ik, k) && !Files(c, s'.tree, ik, k);
    }
  }

  /** Each step keeps completeness, and keeps exactness unless it is a stale CAS. */
  lemma ExecIndexes(c: Config, s: State, ev: Event)
    ensures var s' := Exec(c, s, ev);
            && (Complete(c, s.tree, s.indexes) ==> Complete(c, s'.tree, s'.indexes))
            && (Exact(c, s.tree, s.indexes) ==> (Exact(c, s'.tree, s'.indexes) <==> !LeavesStale(c, s, ev)))
  {
    match ev.op
    case OpPut(k, v, e) =>
      ReplaceUpdate(c, s, k, DbRecord(v, e, s.version + 1));
    case OpDelete(k) =>
      RemoveUpdate(c, s, k);
    case OpCas(k, expected, v, e) =>
      var r := DbRecord(v, e, s.version + 1);
      ReplaceUpdate(c, s, k, r);
      AddUpdate(c, s.tree, s.indexes, k, r);
      if Exact(c, s.tree, s.indexes) && expected == [] && k in s.tree && IsExpired(s.tree[k].expiresAt, ev.now) {
        CasOverExpired(c, s, ev);
      }
    case OpCommit(ws, snap, cmds) =>
      WriteStepsIndexes(c, Logged(s, TxCommit(cmds)), s.version + 1, cmds);
    case OpGet(k) =>
      RemoveUpdate(c, s, k);
    case OpSweep =>
      AllEvictedIndexes(c, s, InOrder(ExpiredKeys(s.tree, ev.now)));
    case OpSnapshot(_) =>
  }

  ghost predicate NeverStale(c: Config, evs: seq<Event>) {
    forall n :: 0 <= n < |evs| ==> !LeavesStale(c, Run(c, FRESH, evs[..n]), evs[n])
  }

  /** Main theorem: the indexes are exact in every state of a run exactly when no CAS of the
      run leaves a stale entry behind. */
  lemma {:induction false} RunExact(c: Config, evs: seq<Event>)
    ensures (forall n :: 0 <= n <= |evs| ==>
               Exact(c, Run(c, FRESH, evs[..n]).tree, Run(c, FRESH, evs[..n]).indexes)) <==> NeverStale(c, evs)
  {
    if NeverStale(c, evs) {
      forall n | 0 <= n <= |evs|
        ensures Exact(c, Run(c, FRESH, evs[..n]).tree, Run(c, FRESH, evs[..n]).indexes)
      {
        ExactUpTo(c, evs, n);
      }
    } else {
      var n :| 0 <= n < |evs| && LeavesStale(c, Run(c, FRESH, evs[..n]), evs[n]);
      var s, s' := Run(c, FRESH, evs[..n]), Run(c, FRESH, evs[..n + 1]);
      RunSnoc(c, FRESH, evs, n);
      ExecIndexes(c, s, evs[n]);
      assert !Exact(c, s.tree, s.indexes) || !Exact(c, s'.tree, s'.indexes);
    }
  }

  lemma {:induction false} ExactUpTo(c: Config, evs: seq<Event>, n: nat)
    requires NeverStale(c, evs) && n <= |evs|
    ensures Exact(c, Run(c, FRESH, evs[..n]).tree, Run(c, FRESH, evs[..n]).indexes)
  {
    if n > 0 {
      ExactUpTo(c, evs, n - 1);
      RunSnoc(c, FRESH, evs, n - 1);
      ExecIndexes(c, Run(c, FRESH, evs[..n - 1]), evs[n - 1]);
    }
  }

  /** Completeness holds after every run without exception. */
  lemma {:induction false} RunComplete(c: Config, evs: seq<Event>)
    ensures Complete(c, Run(c, FRESH, evs).tree, Run(c, FRESH, evs).indexes)
  {
    if evs != [] {
      RunComplete(c, evs[..|evs| - 1]);
      ExecIndexes(c, Run(c, FRESH, evs[..|evs| - 1]), evs[|evs| - 1]);
    }
  }

  /** A run that does leave a stale entry: put with a TTL, then CAS after it has expired. */
  lemma StaleEntryExists(c: Config, k: string, v: Bytes, v': Bytes, ik: string)
    requires ik in c.extract(k, v) && ik !in c.extract(k, v')
    ensures var evs := [At(0, OpPut(k, v, Some(5))), At(9, OpCas(k, [], v', None))];
            Timely(evs) && InIndex(Run(c, FRESH, evs).indexes, ik, k) && !Files(c, Run(c, FRESH, evs).tree, ik, k)
  {
    var evs := [At(0, OpPut(k, v, Some(5))), At(9, OpCas(k, [], v', None))];
    RunSnoc(c, FRESH, evs, 0);
    RunSnoc(c, FRESH, evs, 1);
    assert evs[..0] == [] && evs[..2] == evs;
    var s1 := Run(c, FRESH, evs[..1]);
    AddKeysAt(map[], c.extract(k, v), k, ik, k);
    AddKeysAt(s1.indexes, c.extract(k, v'), k, ik, k);
  }

  // --- Updates that do not take the old value out of the indexes --------------------------------

  /** Tree and indexes, as snapshot load, log replay and snapshot chunks update them. */
  datatype Filing = Filing(tree: Tree, indexes: Indexes)

  /** A record is stored without looking at the one it replaces; a key is dropped properly. */
  datatype BlindOp = Store(key: string, rec: DbRecord) | Drop(key: string)

  function BlindStep(c: Config, f: Filing, op: BlindOp): Filing {
    match op
    case Store(k, r) => Filing(f.tree[k := r], AddKeys(f.indexes, c.extract(k, r.value), k))
    case Drop(k) =>
      Filing(f.tree - {k}, if k in f.tree then RemoveKeys(f.indexes, c.extract(k, f.tree[k].value), k) else f.indexes)
  }

  function BlindRun(c: Config, f: Filing, ops: seq<BlindOp>): Filing {
    if ops == [] then f else BlindStep(c, BlindRun(c, f, ops[..|ops| - 1]), ops[|ops| - 1])
  }

  lemma {:induction false} BlindRunConcat(c: Config, f: Filing, a: seq<BlindOp>, b: seq<BlindOp>)
    ensures BlindRun(c, f, a + b) == BlindRun(c, BlindRun(c, f, a), b)
  {
    if b == [] {
      assert a + b == a;
    } else {
      BlindRunConcat(c, f, a, b[..|b| - 1]);
      assert (a + b)[..|a + b| - 1] == a + b[..|b| - 1];
    }
  }

  /** The operation stores a value for `k` that has the index key. */
  predicate Refiles(c: Config, op: BlindOp, ik: string, k: string) {
    op.Store? && op.key == k && ik in c.extract(k, op.rec.value)
  }

  /** The `j`-th operation overwrites a record of `k` that has the index key by one that lacks
      it, and none that follows stores it again. */
  ghost predicate StaleFrom(c: Config, f: Filing, ops: seq<BlindOp>, ik: string, k: string, j: nat) {
    && j < |ops| && ops[j].Store? && ops[j].key == k && !Refiles(c, ops[j], ik, k)
    && Files(c, BlindRun(c, f, ops[..j]).tree, ik, k)
    && forall i :: j < i < |ops| ==> !Refiles(c, ops[i], ik, k)
  }

  ghost predicate LeftStale(c: Config, f: Filing, ops: seq<BlindOp>, ik: string, k: string) {
    exists j :: StaleFrom(c, f, ops, ik, k, j)
  }

  lemma StaleSnoc(c: Config, f: Filing, ops: seq<BlindOp>, op: BlindOp, ik: string, k: string)
    ensures LeftStale(c, f, ops + [op], ik, k) <==>
            || (LeftStale(c, f, ops, ik, k) && !Refiles(c, op, ik, k))
            || (op.Store? && op.key == k && !Refiles(c, op, ik, k) && Files(c, BlindRun(c, f, ops).tree, ik, k))
  {
    var ops' := ops + [op];
    assert ops'[..|ops|] == ops && ops'[|ops|] == op;
    forall j: nat | j < |ops|
      ensures StaleFrom(c, f, ops', ik, k, j) <==> StaleFrom(c, f, ops, ik, k, j) && !Refiles(c, op, ik, k)
    {
      assert ops'[..j] == ops[..j];
      assert forall i :: 0 <= i < |ops| ==> ops'[i] == ops[i];
    }
    assert StaleFrom(c, f, ops', ik, k, |ops|) <==>
           op.Store? && op.key == k && !Refiles(c, op, ik, k) && Files(c, BlindRun(c, f, ops).tree, ik, k);
    if LeftStale(c, f, ops, ik, k) && !Refiles(c, op, ik, k) {
      var j :| StaleFrom(c, f, ops, ik, k, j);
      assert StaleFrom(c, f, ops', ik, k, j);
    }
  }

  lemma BlindStepAt(c: Config, f: Filing, op: BlindOp, ik: string, k: string)
    ensures InIndex(BlindStep(c, f, op).indexes, ik, k) <==>
            Refiles(c, op, ik, k) || (InIndex(f.indexes, ik, k) && !(op == Drop(k) && Files(c, f.tree, ik, k)))
    ensures Files(c, BlindStep(c, f, op).tree, ik, k) <==>
            if op.key == k then Refiles(c, op, ik, k) else Files(c, f.tree, ik, k)
  {
    match op
    case Store(k', r) => AddKeysAt(f.indexes, c.extract(k', r.value), k', ik, k);
    case Drop(k') =>
      if k' in f.tree {
        RemoveKeysAt(f.indexes, c.extract(k', f.tree[k'].value), k', ik, k);
      }
  }

  /** What the indexes hold in the end: what the records file, and what was left stale. */
  lemma {:induction false} BlindIndex(c: Config, f: Filing, ops: seq<BlindOp>, ik: string, k: string)
    requires Exact(c, f.tree, f.indexes)
    ensures var f' := BlindRun(c, f, ops);
            && (InIndex(f'.indexes, ik, k) <==> Files(c, f'.tree, ik, k) || LeftStale(c, f, ops, ik, k))
            && !(Files(c, f'.tree, ik, k) && LeftStale(c, f, ops, ik, k))
  {
    if ops != [] {
      var before, op := ops[..|ops| - 1], ops[|ops| - 1];
      BlindIndex(c, f, before, ik, k);
      assert before + [op] == ops;
      StaleSnoc(c, f, before, op, ik, k);
      BlindStepAt(c, BlindRun(c, f, before), op, ik, k);
    }
  }

  ghost predicate NothingStale(c: Config, f: Filing, ops: seq<BlindOp>) {
    forall ik, k :: !LeftStale(c, f, ops, ik, k)
  }

  /** Main theorem for blind updates: from exact indexes they lead to exact indexes if and only
      if nothing is left stale; and they always keep them complete. */
  lemma BlindExact(c: Config, f: Filing, ops: seq<BlindOp>)
    requires Exact(c, f.tree, f.indexes)
    ensures var f' := BlindRun(c, f, ops);
            Exact(c, f'.tree, f'.indexes) <==> NothingStale(c, f, ops)
  {
    forall ik, k { BlindIndex(c, f, ops, ik, k); }
  }

  lemma {:induction false} BlindComplete(c: Config, f: Filing, ops: seq<BlindOp>)
    requires Complete(c, f.tree, f.indexes)
    ensures Complete(c, BlindRun(c, f, ops).tree, BlindRun(c, f, ops).indexes)
  {
    if ops != [] {
      var before, op := ops[..|ops| - 1], ops[|ops| - 1];
      BlindComplete(c, f, before);
      forall ik, k { BlindStepAt(c, BlindRun(c, f, before), op, ik, k); }
    }
  }

  /** Storing over a record with an index key that the new value lacks leaves a stale entry. */
  lemma OverwriteLeavesStale(c: Config, f: Filing, k: string, r: DbRecord, ik: string)
    requires Files(c, f.tree, ik, k) && InIndex(f.indexes, ik, k) && ik !in c.extract(k, r.value)
    ensures var f' := BlindStep(c, f, Store(k, r)); InIndex(f'.indexes, ik, k) && !Files(c, f'.tree, ik, k)
  {
    BlindStepAt(c, f, Store(k, r), ik, k);
  }
}
