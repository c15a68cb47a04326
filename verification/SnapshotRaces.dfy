/**
 Snapshots beside running clients.  A snapshot writes the tree and empties the log file; a put
 that has been logged and not yet inserted is then in neither.
 */
module SnapshotRaces {
  import opened Prelude
  import opened Store
  import opened Server
  import opened Concurrency
  import opened PlainWrites
  import opened CasRaces
  import opened KeyGuard

  /** Applies a log to a tree. */
  function Resume(t: Tree, log: seq<LogEntry>): Tree {
    if log == [] then t else Apply(Resume(t, log[..|log| - 1]), log[|log| - 1])
  }

  /** What snapshot and log file recover, expiry aside. */
  function Recovered(w: World): Tree {
    Resume(w.base, if w.cut <= |w.log| then w.log[w.cut..] else [])
  }

  lemma ResumeSnoc(t: Tree, log: seq<LogEntry>, e: LogEntry)
    ensures Resume(t, log + [e]) == Apply(Resume(t, log), e)
  {
    assert (log + [e])[..|log|] == log;
  }

  /** The last snapshot was taken while a client had logged the key and not yet inserted it, and
      the key was not logged again since. */
  ghost predicate Loses(actions: seq<Action>, k: string) {
    actions != [] &&
    var last := |actions| - 1;
    var w, a := After(actions[..last]), actions[last];
    if a.Snapshot? then exists c: Client :: StakeOf(PcOf(w, c), k).ToInsert?
    else !LogsKey(w, a, k) && Loses(actions[..last], k)
  }

  // --- A logged put that is not yet in the tree -----------------------------------------------------------

  ghost predicate Unplaced(w: World, pc: Pc, k: string) {
    pc.Recorded? && pc.req.PlainPut? && pc.req.key == k ==> !InTrace(w.trace, pc.version, k)
  }

  ghost predicate AllUnplaced(w: World, k: string) {
    forall c: Client :: Unplaced(w, PcOf(w, c), k)
  }

  lemma TraceAt(w: World, a: Action)
    requires Enabled(w, a)
    ensures Take(w, a).trace == w.trace ||
            (ChangedBy(w, a).Some? && Take(w, a).trace == w.trace + [ChangedBy(w, a).value] &&
             !ChangedBy(w, a).value.cmd.TxCommit?)
  {
  }

  lemma InTraceStep(w: World, a: Action, id: nat, k: string)
    requires Enabled(w, a) && !ChangesKey(w, a, k)
    ensures InTrace(Take(w, a).trace, id, k) ==> InTrace(w.trace, id, k)
  {
    TraceAt(w, a);
    var trace' := Take(w, a).trace;
    if InTrace(trace', id, k) {
      var i :| 0 <= i < |trace'| && trace'[i].id == id && Stores(WriteOf(trace'[i].cmd, k));
      assert i < |w.trace| && w.trace[i] == trace'[i];
    }
  }

  /** A version that is still in the hands of a client is not in the trace. */
  lemma TakenNotTraced(w: World, c: Client, k: string)
    requires Ids(w) && LoggedFirst(w) && Taken(PcOf(w, c)).Some?
    ensures !InTrace(w.trace, Taken(PcOf(w, c)).value, k)
  {
    var v := Taken(PcOf(w, c)).value;
    assert Free(w, PcOf(w, c));
    if InTrace(w.trace, v, k) {
      TraceInLog(w, v, k);
    }
  }

  /** A client gets to where it has logged and not inserted by logging. */
  lemma RecordedByLog(w: World, a: Action)
    requires Enabled(w, a) && PcOf(Take(w, a), a.c).Recorded?
    ensures a.Log? && Taken(PcOf(w, a.c)) == Some(PcOf(Take(w, a), a.c).version) && Take(w, a).trace == w.trace
  {
  }

  lemma OtherUnplaced(w: World, a: Action, c: Client, k: string)
    requires Enabled(w, a) && c != a.c && Careful(w, a, k) && Unplaced(w, PcOf(w, c), k)
    ensures Unplaced(Take(w, a), PcOf(w, c), k)
  {
    if StakeOf(PcOf(w, c), k).ToInsert? && PcOf(w, c).Recorded? {
      InTraceStep(w, a, PcOf(w, c).version, k);
    }
  }

  lemma UnplacedStep(w: World, a: Action, k: string)
    requires Enabled(w, a) && Ids(w) && LoggedFirst(w) && AllUnplaced(w, k) && Careful(w, a, k)
    ensures AllUnplaced(Take(w, a), k)
  {
    var w' := Take(w, a);
    forall c: Client ensures Unplaced(w', PcOf(w', c), k) {
      if c != a.c {
        assert Unplaced(w, PcOf(w, c), k);
        OthersStay(w, a, c);
        OtherUnplaced(w, a, c, k);
      } else if PcOf(w', c).Recorded? {
        RecordedByLog(w, a);
        TakenNotTraced(w, c, k);
      }
    }
  }

  // --- The invariant -----------------------------------------------------------------------------------------

  ghost predicate SomeToLog(w: World, k: string) {
    exists c: Client :: StakeOf(PcOf(w, c), k).ToLog?
  }

  ghost predicate RecoveryInv(w: World, k: string, lost: bool) {
    && w.cut <= |w.log|
    && if lost then Find(Recovered(w), k) != LogSays(w, k)
       else Find(Recovered(w), k) == LogSays(w, k) || SomeToLog(w, k)
  }

  /** The record of a logged put is not the one in the tree before it is placed. */
  lemma NotYetHeld(w: World, c: Client, k: string)
    requires w.tree == Fold(w.trace) && AllUnplaced(w, k) && PcOf(w, c).Recorded? && StakeOf(PcOf(w, c), k).ToInsert?
    ensures StakeOf(PcOf(w, c), k) != ToInsert(TreeHas(w, k))
  {
    assert Unplaced(w, PcOf(w, c), k);
    FoldAt(w.trace, k);
    if LastWrite(w.trace, k).Some? {
      LastWriteIsIn(w.trace, k);
    }
  }

  lemma TakesSnapshot(w: World, a: Action, k: string)
    requires Enabled(w, a) && a.Snapshot? && Mutex(w) && KeyInv(w, k) && AllUnplaced(w, k) && w.tree == Fold(w.trace)
    ensures RecoveryInv(Take(w, a), k, exists c: Client :: StakeOf(PcOf(w, c), k).ToInsert?)
  {
    var w' := Take(w, a);
    assert w'.log[w'.cut..] == [] && Recovered(w') == w.tree;
    assert LogSays(w', k) == LogSays(w, k);
    if c: Client :| StakeOf(PcOf(w, c), k).ToInsert? {
      assert Holds(PcOf(w, c)) <==> w.owner == Some(c);
      assert StakeHolds(w, StakeOf(PcOf(w, c), k), k);
      NotYetHeld(w, c, k);
    } else if !NobodyHalfDone(w, k) {
      var c: Client :| !StakeOf(PcOf(w, c), k).NoStake?;
      assert PcOf(w', c) == PcOf(w, c);
      assert StakeOf(PcOf(w', c), k).ToLog?;
    }
  }

  lemma RecoveredAt(w: World, a: Action, k: string)
    requires Enabled(w, a) && !a.Snapshot? && w.cut <= |w.log|
    ensures Take(w, a).cut <= |Take(w, a).log|
    ensures Find(Recovered(Take(w, a)), k) == if LogsKey(w, a, k) then LogSays(Take(w, a), k) else Find(Recovered(w), k)
  {
    LogAt(w, a, k);
    var w' := Take(w, a);
    if LoggedBy(w, a).Some? {
      var e := LoggedBy(w, a).value;
      assert w'.log[w'.cut..] == w.log[w.cut..] + [e];
      ResumeSnoc(w.base, w.log[w.cut..], e);
      ApplyAt(Recovered(w), e, k);
    } else {
      assert w'.log == w.log;
    }
  }

  lemma ToLogStays(w: World, a: Action, k: string)
    requires Enabled(w, a) && Honest(w) && SomeToLog(w, k) && !LogsKey(w, a, k) && Careful(w, a, k)
    ensures SomeToLog(Take(w, a), k)
  {
    var c: Client :| StakeOf(PcOf(w, c), k).ToLog?;
    StakeStep(w, a, k);
    if c != a.c {
      OthersStay(w, a, c);
    }
    assert StakeOf(PcOf(Take(w, a), c), k).ToLog?;
  }

  lemma OtherRecovery(w: World, a: Action, k: string, lost: bool)
    requires Enabled(w, a) && !a.Snapshot? && Honest(w) && Careful(w, a, k) && RecoveryInv(w, k, lost)
    ensures RecoveryInv(Take(w, a), k, lost && !LogsKey(w, a, k))
  {
    RecoveredAt(w, a, k);
    LogAt(w, a, k);
    if !LogsKey(w, a, k) && SomeToLog(w, k) {
      ToLogStays(w, a, k);
    }
  }

  lemma {:induction false} RecoveryHolds(actions: seq<Action>, k: string)
    requires Interleaving(actions) && Guarded(actions, k)
    ensures RecoveryInv(After(actions), k, Loses(actions, k)) && AllUnplaced(After(actions), k)
  {
    if actions != [] {
      var last := |actions| - 1;
      var before, a := actions[..last], actions[last];
      var w := After(before);
      RecoveryHolds(before, k);
      CasRaces.Held(before);
      IdsHold(before);
      LoggedHolds(before);
      UnplacedStep(w, a, k);
      if a.Snapshot? {
        KeyHolds(before, k);
        Traced(before);
        TakesSnapshot(w, a, k);
      } else {
        OtherRecovery(w, a, k, Loses(before, k));
      }
    }
  }

  /** Main theorem: where the clients of a key are careful, and once none is half done with it,
      snapshot and log file recover what the tree holds for the key, if and only if the last
      snapshot did not fall between the log and the insertion of a put of it, or the key was
      logged again since. */
  lemma SnapshotExact(actions: seq<Action>, k: string)
    requires Interleaving(actions) && Guarded(actions, k) && NobodyHalfDone(After(actions), k)
    ensures Find(Recovered(After(actions)), k) == Find(After(actions).tree, k) <==> !Loses(actions, k)
  {
    RecoveryHolds(actions, k);
    KeyAgrees(actions, k);
  }
}
