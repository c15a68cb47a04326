/**
 Stale index entries over whole runs: where they come from and how long they stay.
 */
module StaleRuns {
  import opened Prelude
  import opened Ordered
  import opened Store
  import opened Indexes
  import opened Server
  import opened History
  import opened IndexRuns
  import opened CommitOrder

  /** A CAS that stores over an expired record of `k`, which is not unindexed. */
  predicate StoresOver(s: State, ev: Event, k: string) {
    && ev.op.OpCas? && ev.op.key == k && ev.op.expected == []
    && k in s.tree && IsExpired(s.tree[k].expiresAt, ev.now)
  }

  // --- One step --------------------------------------------------------------------------------------

  /** What a step leaves in an index set about a key: an entry that was or becomes right stays
      or comes; an entry that was right and no longer is goes, unless the step stores over. */
  ghost predicate IndexStep(c: Config, s: State, ev: Event, ik: string, k: string) {
    InIndex(Exec(c, s, ev).indexes, ik, k) <==>
    || Files(c, Exec(c, s, ev).tree, ik, k)
    || (InIndex(s.indexes, ik, k) && (StoresOver(s, ev, k) || !Files(c, s.tree, ik, k)))
  }

  lemma PutIndexStep(c: Config, s: State, ev: Event, ik: string, k: string)
    requires ev.op.OpPut? && Complete(c, s.tree, s.indexes)
    ensures IndexStep(c, s, ev, ik, k)
  {
    var key, v := ev.op.key, ev.op.value;
    UnindexedAt(c, s, key, ik, k);
    AddKeysAt(Unindexed(c, s, key), c.extract(key, v), key, ik, k);
  }

  lemma CasIndexStep(c: Config, s: State, ev: Event, ik: string, k: string)
    requires ev.op.OpCas? && Complete(c, s.tree, s.indexes)
    ensures IndexStep(c, s, ev, ik, k)
  {
    var key, v := ev.op.key, ev.op.value;
    UnindexedAt(c, s, key, ik, k);
    AddKeysAt(Unindexed(c, s, key), c.extract(key, v), key, ik, k);
    AddKeysAt(s.indexes, c.extract(key, v), key, ik, k);
  }

  lemma CommitIndexStep(c: Config, s: State, ev: Event, ik: string, k: string)
    requires ev.op.OpCommit? && Proper(ev.op) && Complete(c, s.tree, s.indexes)
    ensures IndexStep(c, s, ev, ik, k)
  {
    if !Conflicts(s.tree, ev.op.ws, ev.op.snapshotVersion) {
      var cmds := ev.op.cmds;
      var s1 := Logged(s, TxCommit(cmds));
      WriteStepsAt(c, s1, s.version + 1, cmds, ik, k);
      WriteStepsFrame(c, s1, s.version + 1, cmds);
      ApplyAllAt(s.tree, s.version + 1, cmds, k);
      assert Files(c, Exec(c, s, ev).tree, ik, k) <==>
             if WriteAll(cmds, k).None? then Files(c, s.tree, ik, k) else Brings(c, WriteAll(cmds, k), ik, k);
    }
  }

  lemma {:induction false} EvictedAt(c: Config, s: State, ks: seq<string>, ik: string, k: string)
    requires Complete(c, s.tree, s.indexes)
    ensures InIndex(AllEvicted(c, s, ks).indexes, ik, k) <==>
            InIndex(s.indexes, ik, k) && !(k in ks && Files(c, s.tree, ik, k))
    ensures Find(AllEvicted(c, s, ks).tree, k) == if k in ks then None else Find(s.tree, k)
  {
    if ks != [] {
      var before, key := ks[..|ks| - 1], ks[|ks| - 1];
      EvictedAt(c, s, before, ik, k);
      UnindexedAt(c, AllEvicted(c, s, before), key, ik, k);
      assert ks == before + [key];
    }
  }

  lemma DropIndexStep(c: Config, s: State, ev: Event, ik: string, k: string)
    requires (ev.op.OpDelete? || ev.op.OpGet? || ev.op.OpSweep? || ev.op.OpSnapshot?) && Complete(c, s.tree, s.indexes)
    ensures IndexStep(c, s, ev, ik, k)
  {
    match ev.op
    case OpDelete(key) => UnindexedAt(c, s, key, ik, k);
    case OpGet(key) => UnindexedAt(c, s, key, ik, k);
    case OpSweep => EvictedAt(c, s, InOrder(ExpiredKeys(s.tree, ev.now)), ik, k);
    case OpSnapshot(_) =>
  }

  lemma ExecIndexAt(c: Config, s: State, ev: Event, ik: string, k: string)
    requires Proper(ev.op) && Complete(c, s.tree, s.indexes)
    ensures IndexStep(c, s, ev, ik, k)
  {
    if ev.op.OpPut? {
      PutIndexStep(c, s, ev, ik, k);
    } else if ev.op.OpCas? {
      CasIndexStep(c, s, ev, ik, k);
    } else if ev.op.OpCommit? {
      CommitIndexStep(c, s, ev, ik, k);
    } else {
      DropIndexStep(c, s, ev, ik, k);
    }
  }

  // --- Whole runs -------------------------------------------------------------------------------------

  predicate FiledAfter(c: Config, evs: seq<Event>, n: nat, ik: string, k: string)
    requires n <= |evs|
  {
    Files(c, Run(c, FRESH, evs[..n]).tree, ik, k)
  }

  /** The `j`-th event is a CAS that stores over an expired record with the index key, and from
      then on the key never holds a record with it. */
  ghost predicate StaleSince(c: Config, evs: seq<Event>, ik: string, k: string, j: nat) {
    && j < |evs| && StoresOver(Run(c, FRESH, evs[..j]), evs[j], k) && FiledAfter(c, evs, j, ik, k)
    && forall i :: j < i <= |evs| ==> !FiledAfter(c, evs, i, ik, k)
  }

  ghost predicate LeftStaleBy(c: Config, evs: seq<Event>, ik: string, k: string) {
    exists j :: StaleSince(c, evs, ik, k, j)
  }

  lemma StaleSinceSnoc(c: Config, evs: seq<Event>, ev: Event, ik: string, k: string, j: nat)
    requires j < |evs|
    ensures StaleSince(c, evs + [ev], ik, k, j) <==>
            StaleSince(c, evs, ik, k, j) && !FiledAfter(c, evs + [ev], |evs| + 1, ik, k)
  {
    var evs' := evs + [ev];
    assert evs'[..j] == evs[..j] && evs'[j] == evs[j];
    forall i | 0 <= i <= |evs| ensures FiledAfter(c, evs', i, ik, k) == FiledAfter(c, evs, i, ik, k) {
      assert evs'[..i] == evs[..i];
    }
  }

  lemma StaleSinceLast(c: Config, evs: seq<Event>, ev: Event, ik: string, k: string)
    ensures StaleSince(c, evs + [ev], ik, k, |evs|) <==>
            StoresOver(Run(c, FRESH, evs), ev, k) && FiledAfter(c, evs, |evs|, ik, k) &&
            !FiledAfter(c, evs + [ev], |evs| + 1, ik, k)
  {
    var evs' := evs + [ev];
    assert evs'[..|evs|] == evs && evs[..|evs|] == evs && evs'[|evs|] == ev;
  }

  lemma LeftStaleSnoc(c: Config, evs: seq<Event>, ev: Event, ik: string, k: string)
    ensures LeftStaleBy(c, evs + [ev], ik, k) <==>
            !FiledAfter(c, evs + [ev], |evs| + 1, ik, k) &&
            (LeftStaleBy(c, evs, ik, k) || (StoresOver(Run(c, FRESH, evs), ev, k) && FiledAfter(c, evs, |evs|, ik, k)))
  {
    StaleSinceLast(c, evs, ev, ik, k);
    StaleStays(c, evs, ev, ik, k);
    if LeftStaleBy(c, evs + [ev], ik, k) {
      StaleWas(c, evs, ev, ik, k);
    }
  }

  lemma StaleStays(c: Config, evs: seq<Event>, ev: Event, ik: string, k: string)
    ensures LeftStaleBy(c, evs, ik, k) && !FiledAfter(c, evs + [ev], |evs| + 1, ik, k) ==>
            LeftStaleBy(c, evs + [ev], ik, k)
  {
    if LeftStaleBy(c, evs, ik, k) {
      var j: nat :| StaleSince(c, evs, ik, k, j);
      StaleSinceSnoc(c, evs, ev, ik, k, j);
    }
  }

  lemma StaleWas(c: Config, evs: seq<Event>, ev: Event, ik: string, k: string)
    requires LeftStaleBy(c, evs + [ev], ik, k)
    ensures !FiledAfter(c, evs + [ev], |evs| + 1, ik, k)
    ensures LeftStaleBy(c, evs, ik, k) || StaleSince(c, evs + [ev], ik, k, |evs|)
  {
    var j: nat :| StaleSince(c, evs + [ev], ik, k, j);
    if j < |evs| {
      StaleSinceSnoc(c, evs, ev, ik, k, j);
    }
  }

  lemma FiledNow(c: Config, evs: seq<Event>, ev: Event, ik: string, k: string)
    ensures FiledAfter(c, evs, |evs|, ik, k) == Files(c, Run(c, FRESH, evs).tree, ik, k)
    ensures FiledAfter(c, evs + [ev], |evs| + 1, ik, k) == Files(c, Exec(c, Run(c, FRESH, evs), ev).tree, ik, k)
  {
    assert evs[..|evs|] == evs && (evs + [ev])[..|evs| + 1] == evs + [ev];
    RunLast(c, evs, ev);
  }

  /** Main theorem: after every run an index set holds exactly the keys whose records extract it
      and those that a CAS left stale, and never both for the same reason. */
  lemma {:induction false} RunIndex(c: Config, evs: seq<Event>, ik: string, k: string)
    requires forall i :: 0 <= i < |evs| ==> Proper(evs[i].op)
    ensures var s := Run(c, FRESH, evs);
            && (InIndex(s.indexes, ik, k) <==> Files(c, s.tree, ik, k) || LeftStaleBy(c, evs, ik, k))
            && !(Files(c, s.tree, ik, k) && LeftStaleBy(c, evs, ik, k))
  {
    if evs != [] {
      var before, ev := evs[..|evs| - 1], evs[|evs| - 1];
      RunIndex(c, before, ik, k);
      RunComplete(c, before);
      ExecIndexAt(c, Run(c, FRESH, before), ev, ik, k);
      LeftStaleSnoc(c, before, ev, ik, k);
      FiledNow(c, before, ev, ik, k);
      assert before + [ev] == evs;
    }
  }
}
