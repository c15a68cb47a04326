/**
 Schedules that show what can go wrong when puts, deletes, evictions and snapshots run beside
 each other and beside CAS and commit.
 */
module Races {
  import opened Prelude
  import opened Store
  import opened Server
  import opened Concurrency
  import opened PlainWrites
  import opened CasRaces
  import opened KeyGuard
  import opened SnapshotRaces

  // --- Schedules as paths --------------------------------------------------------------------------

  /** A path of a transition relation from `w` to `w'`. */
  ghost predicate Path<W(!new), A>(next: (W, A, W) -> bool, w: W, steps: seq<A>, w': W)
    decreases |steps|
  {
    if steps == [] then w == w'
    else exists mid :: next(w, steps[0], mid) && Path(next, mid, steps[1..], w')
  }

  lemma {:induction false} PathConcat<W(!new), A>(next: (W, A, W) -> bool, w: W, a: seq<A>, w': W, b: seq<A>, w'': W)
    requires Path(next, w, a, w') && Path(next, w', b, w'')
    ensures Path(next, w, a + b, w'')
    decreases |a|
  {
    if a == [] {
      assert a + b == b;
    } else {
      var mid :| next(w, a[0], mid) && Path(next, mid, a[1..], w');
      PathConcat(next, mid, a[1..], w', b, w'');
      assert (a + b)[1..] == a[1..] + b;
    }
  }

  lemma {:induction false} PathLast<W(!new), A>(next: (W, A, W) -> bool, w: W, steps: seq<A>, w': W) returns (mid: W)
    requires steps != [] && Path(next, w, steps, w')
    ensures Path(next, w, steps[..|steps| - 1], mid) && next(mid, steps[|steps| - 1], w')
    decreases |steps|
  {
    var first :| next(w, steps[0], first) && Path(next, first, steps[1..], w');
    if |steps| == 1 {
      mid := w;
    } else {
      mid := PathLast(next, first, steps[1..], w');
      assert steps[..|steps| - 1][1..] == steps[1..][..|steps| - 2];
    }
  }

  /** The transitions of the world. */
  ghost function Moves(): (World, Action, World) -> bool {
    (w, a, w') => Enabled(w, a) && Take(w, a) == w'
  }

  /** The actions can be taken one after the other from `w`, and end in `w'`. */
  ghost predicate Leads(w: World, actions: seq<Action>, w': World) {
    Path(Moves(), w, actions, w')
  }

  lemma LeadsTwo(w: World, a: Action, b: Action)
    requires Enabled(w, a) && Enabled(Take(w, a), b)
    ensures Leads(w, [a, b], Take(Take(w, a), b))
  {
    var mid := Take(w, a);
    assert [a, b][1..] == [b] && [b][1..] == [];
    assert Moves()(mid, b, Take(mid, b)) && Path(Moves(), Take(mid, b), [], Take(mid, b));
    assert Path(Moves(), mid, [b], Take(mid, b));
    assert Moves()(w, a, mid);
  }

  lemma {:induction false} LeadsFromStart(actions: seq<Action>, w: World)
    requires Leads(START, actions, w)
    ensures Interleaving(actions) && After(actions) == w
    decreases |actions|
  {
    if actions != [] {
      var mid := PathLast(Moves(), START, actions, w);
      LeadsFromStart(actions[..|actions| - 1], mid);
      assert Moves()(mid, actions[|actions| - 1], w);
    }
  }

  lemma LeadsOne(w: World, a: Action)
    requires Enabled(w, a)
    ensures Leads(w, [a], Take(w, a))
  {
    assert [a][1..] == [];
    assert Moves()(w, a, Take(w, a)) && Path(Moves(), Take(w, a), [], Take(w, a));
  }

  /** Clients 1 and 2 are where the arguments say, and nobody else is active. */
  ghost predicate Pair(w: World, pc1: Pc, pc2: Pc, owner: Option<Client>) {
    PcOf(w, 1) == pc1 && PcOf(w, 2) == pc2 && w.pcs.Keys <= {1, 2} && w.owner == owner
  }

  ghost predicate Two(w: World, pc1: Pc, pc2: Pc) {
    Pair(w, pc1, pc2, None)
  }

  // --- Two puts of one key -----------------------------------------------------------------------------

  function Opening(k: string, a: Bytes, b: Bytes): seq<Action> {
    [Call(1, PlainPut(k, a, None)), Call(2, PlainPut(k, b, None)), Stamp(1), Stamp(2)]
  }

  /** The two have called, and take their versions in the order of their names. */
  lemma BothStamped(k: string, a: Bytes, b: Bytes) returns (w: World)
    ensures Leads(START, Opening(k, a, b), w)
    ensures Two(w, Stamped(PlainPut(k, a, None), 1), Stamped(PlainPut(k, b, None), 2))
    ensures w.tree == map[] && w.log == [] && w.version == 2
  {
    var p, q := PlainPut(k, a, None), PlainPut(k, b, None);
    var w1 := Take(START, Call(1, p));
    var w2 := Take(w1, Call(2, q));
    assert Two(w2, Waiting(p), Waiting(q));
    LeadsTwo(START, Call(1, p), Call(2, q));
    w := StampBoth(w2, p, q);
    PathConcat(Moves(), START, [Call(1, p), Call(2, q)], w2, [Stamp(1), Stamp(2)], w);
    assert [Call(1, p), Call(2, q)] + [Stamp(1), Stamp(2)] == Opening(k, a, b);
  }

  lemma StampBoth(w: World, p: Request, q: Request) returns (w': World)
    requires Two(w, Waiting(p), Waiting(q)) && p.PlainPut? && q.PlainPut?
    ensures Leads(w, [Stamp(1), Stamp(2)], w')
    ensures Two(w', Stamped(p, w.version + 1), Stamped(q, w.version + 2))
    ensures w'.tree == w.tree && w'.log == w.log && w'.version == w.version + 2
  {
    var w1 := Take(w, Stamp(1));
    w' := Take(w1, Stamp(2));
    LeadsTwo(w, Stamp(1), Stamp(2));
  }

  lemma LogBoth(w: World, k: string, a: Bytes, b: Bytes, first: Client, second: Client) returns (w': World)
    requires Two(w, Stamped(PlainPut(k, a, None), 1), Stamped(PlainPut(k, b, None), 2)) && w.log == []
    requires {first, second} == {1, 2}
    ensures Leads(w, [Log(first), Log(second)], w')
    ensures Two(w', Recorded(PlainPut(k, a, None), 1), Recorded(PlainPut(k, b, None), 2))
    ensures var ea, eb := LogEntry(1, Put(k, a, None)), LogEntry(2, Put(k, b, None));
            w'.log == if first == 1 then [ea, eb] else [eb, ea]
    ensures w'.tree == w.tree
  {
    assert first in {1, 2} && second in {1, 2} && 1 in {first, second} && 2 in {first, second};
    var w1 := Take(w, Log(first));
    w' := Take(w1, Log(second));
    LeadsTwo(w, Log(first), Log(second));
  }

  lemma PlaceBoth(w: World, k: string, a: Bytes, b: Bytes) returns (w': World)
    requires Two(w, Recorded(PlainPut(k, a, None), 1), Recorded(PlainPut(k, b, None), 2)) && w.tree == map[]
    ensures Leads(w, [Place(2), Place(1)], w')
    ensures Two(w', Finished(PlainPut(k, a, None), true), Finished(PlainPut(k, b, None), true))
    ensures w'.tree == map[k := DbRecord(a, None, 1)] && w'.log == w.log
  {
    var w1 := Take(w, Place(2));
    w' := Take(w1, Place(1));
    LeadsTwo(w, Place(2), Place(1));
  }

  lemma ReturnBoth(w: World, p: Request, q: Request) returns (w': World)
    requires Two(w, Finished(p, true), Finished(q, true))
    ensures Leads(w, [Return(1), Return(2)], w')
    ensures AtRest(w') && w'.tree == w.tree && w'.log == w.log
  {
    var w1 := Take(w, Return(1));
    w' := Take(w1, Return(2));
    LeadsTwo(w, Return(1), Return(2));
  }

  /** A schedule of two puts that logs their ids out of order. */
  lemma IdRace(k: string, a: Bytes, b: Bytes)
    ensures var actions := Opening(k, a, b) + [Log(2), Log(1)];
            Interleaving(actions) &&
            After(actions).log == [LogEntry(2, Put(k, b, None)), LogEntry(1, Put(k, a, None))]
  {
    var w := BothStamped(k, a, b);
    var w' := LogBoth(w, k, a, b, 2, 1);
    PathConcat(Moves(), START, Opening(k, a, b), w, [Log(2), Log(1)], w');
    LeadsFromStart(Opening(k, a, b) + [Log(2), Log(1)], w');
  }

  lemma TwoPuts(k: string, a: Bytes, b: Bytes)
    ensures Fold([LogEntry(1, Put(k, a, None)), LogEntry(2, Put(k, b, None))]) == map[k := DbRecord(b, None, 2)]
  {
    var log := [LogEntry(1, Put(k, a, None)), LogEntry(2, Put(k, b, None))];
    assert log[..1] == [log[0]] && log[..1][..0] == [];
    assert Fold(log[..1]) == map[k := DbRecord(a, None, 1)];
  }

  function Ending(): seq<Action> {
    [Place(2), Place(1)] + [Return(1), Return(2)]
  }

  lemma Ended(w: World, k: string, a: Bytes, b: Bytes) returns (w': World)
    requires Two(w, Recorded(PlainPut(k, a, None), 1), Recorded(PlainPut(k, b, None), 2)) && w.tree == map[]
    ensures Leads(w, Ending(), w')
    ensures AtRest(w') && w'.tree == map[k := DbRecord(a, None, 1)] && w'.log == w.log
  {
    var mid := PlaceBoth(w, k, a, b);
    w' := ReturnBoth(mid, PlainPut(k, a, None), PlainPut(k, b, None));
    PathConcat(Moves(), w, [Place(2), Place(1)], mid, [Return(1), Return(2)], w');
  }

  function RaceSchedule(k: string, a: Bytes, b: Bytes): seq<Action> {
    Opening(k, a, b) + ([Log(1), Log(2)] + Ending())
  }

  lemma RaceRuns(k: string, a: Bytes, b: Bytes) returns (w: World)
    ensures Leads(START, RaceSchedule(k, a, b), w)
    ensures AtRest(w) && w.tree == map[k := DbRecord(a, None, 1)]
    ensures w.log == [LogEntry(1, Put(k, a, None)), LogEntry(2, Put(k, b, None))]
  {
    var w1 := BothStamped(k, a, b);
    var w2 := LogBoth(w1, k, a, b, 1, 2);
    w := Ended(w2, k, a, b);
    PathConcat(Moves(), w1, [Log(1), Log(2)], w2, Ending(), w);
    PathConcat(Moves(), START, Opening(k, a, b), w1, [Log(1), Log(2)] + Ending(), w);
  }

  /** A schedule of two puts after which the tree holds one value and the log says the other:
      they are logged in one order and inserted in the other. */
  lemma PutRace(k: string, a: Bytes, b: Bytes)
    ensures var actions := RaceSchedule(k, a, b);
            var w := After(actions);
            && Interleaving(actions) && AtRest(w) && Consecutive(w.log)
            && w.tree == map[k := DbRecord(a, None, 1)] && Fold(w.log) == map[k := DbRecord(b, None, 2)]
  {
    var w := RaceRuns(k, a, b);
    LeadsFromStart(RaceSchedule(k, a, b), w);
    TwoPuts(k, a, b);
  }

  // --- A put between the check and the insertion of a CAS ---------------------------------------------

  /** A put has been logged and is about to be placed, while client 1 waits with its request. */
  function PutLogged(req: Request, k: string, b: Bytes): seq<Action> {
    [Call(1, req), Call(2, PlainPut(k, b, None))] + [Stamp(2), Log(2)]
  }

  lemma PutIsLogged(req: Request, k: string, b: Bytes) returns (w: World)
    ensures Leads(START, PutLogged(req, k, b), w)
    ensures Two(w, Waiting(req), Recorded(PlainPut(k, b, None), 1))
    ensures w.tree == map[] && w.version == 1 && w.log == [LogEntry(1, Put(k, b, None))] && w.trace == []
    ensures w.history == [Called(1, req), Called(2, PlainPut(k, b, None))]
  {
    var p := PlainPut(k, b, None);
    var w1 := Take(START, Call(1, req));
    var w2 := Take(w1, Call(2, p));
    assert Two(w2, Waiting(req), Waiting(p));
    LeadsTwo(START, Call(1, req), Call(2, p));
    w := PutOfTwo(w2, req, k, b);
    PathConcat(Moves(), START, [Call(1, req), Call(2, p)], w2, [Stamp(2), Log(2)], w);
  }

  lemma PutOfTwo(w: World, req: Request, k: string, b: Bytes) returns (w': World)
    requires Two(w, Waiting(req), Waiting(PlainPut(k, b, None))) && w.log == []
    ensures Leads(w, [Stamp(2), Log(2)], w')
    ensures Two(w', Waiting(req), Recorded(PlainPut(k, b, None), w.version + 1))
    ensures w' == w.(pcs := w'.pcs, version := w.version + 1, log := [LogEntry(w.version + 1, Put(k, b, None))])
  {
    var w1 := Take(w, Stamp(2));
    w' := Take(w1, Log(2));
    LeadsTwo(w, Stamp(2), Log(2));
  }

  /** Client 1 takes the mutex and passes its check of an empty tree; then the put is placed. */
  lemma CasChecks(w: World, k: string, v: Bytes, b: Bytes) returns (w': World)
    requires Two(w, Waiting(Cas(k, [], v, None)), Recorded(PlainPut(k, b, None), 1)) && w.tree == map[]
    ensures Leads(w, [Lock(1), CheckCas(1, 0)], w')
    ensures Pair(w', Cleared(Cas(k, [], v, None), 0), Recorded(PlainPut(k, b, None), 1), Some(1))
    ensures w' == w.(pcs := w'.pcs, owner := Some(1))
  {
    var w1 := Take(w, Lock(1));
    w' := Take(w1, CheckCas(1, 0));
    LeadsTwo(w, Lock(1), CheckCas(1, 0));
  }

  lemma PutPlaced(w: World, req: Request, k: string, b: Bytes) returns (w': World)
    requires Pair(w, Cleared(req, 0), Recorded(PlainPut(k, b, None), 1), Some(1)) && w.tree == map[]
    ensures Leads(w, [Place(2), FetchAdd(1)], w')
    ensures Pair(w', Versioned(req, 0, w.version + 1), Finished(PlainPut(k, b, None), true), Some(1))
    ensures w' == w.(pcs := w'.pcs, version := w.version + 1, tree := map[k := DbRecord(b, None, 1)],
                     trace := w.trace + [LogEntry(1, Put(k, b, None))])
  {
    var w1 := Take(w, Place(2));
    w' := Take(w1, FetchAdd(1));
    LeadsTwo(w, Place(2), FetchAdd(1));
  }

  lemma Overwritten(w: World, req: Request, k: string, v: Bytes, b: Bytes) returns (w': World)
    requires Pair(w, Versioned(req, 0, 2), Finished(PlainPut(k, b, None), true), Some(1))
    requires w.tree == map[k := DbRecord(b, None, 1)] && Writes(req, [Put(k, v, None)])
    ensures Leads(w, [Append(1, [Put(k, v, None)]), Insert(1)], w')
    ensures Pair(w', Inserting(req, 2, [Put(k, v, None)], 1), Finished(PlainPut(k, b, None), true), Some(1))
    ensures w' == w.(pcs := w'.pcs, tree := map[k := DbRecord(v, None, 2)],
                     log := w.log + [LogEntry(2, Logs(req, [Put(k, v, None)]))],
                     history := w.history + [Effect(1, req, 0, [Put(k, v, None)], true)],
                     trace := w.trace + [LogEntry(2, Put(k, v, None))])
  {
    var cmds := [Put(k, v, None)];
    var w1 := Take(w, Append(1, cmds));
    w' := Take(w1, Insert(1));
    LeadsTwo(w, Append(1, cmds), Insert(1));
  }

  lemma BothReturn(w: World, req: Request, k: string, v: Bytes, b: Bytes) returns (w': World)
    requires Pair(w, Inserting(req, 2, [Put(k, v, None)], 1), Finished(PlainPut(k, b, None), true), Some(1))
    ensures Leads(w, [Unlock(1), Return(1)] + [Return(2)], w')
    ensures AtRest(w')
    ensures w' == w.(pcs := w'.pcs, owner := None, history := w.history + [Returned(1, true), Returned(2, true)])
  {
    var w1 := Take(w, Unlock(1));
    var w2 := Take(w1, Return(1));
    LeadsTwo(w, Unlock(1), Return(1));
    assert Two(w2, Idle, Finished(PlainPut(k, b, None), true));
    w' := Take(w2, Return(2));
    LeadsOne(w2, Return(2));
    PathConcat(Moves(), w, [Unlock(1), Return(1)], w2, [Return(2)], w');
    assert w.history + [Returned(1, true)] + [Returned(2, true)] == w.history + [Returned(1, true), Returned(2, true)];
  }

  /** The request writes over the put, and both clients return. */
  function Overwriting(k: string, v: Bytes): seq<Action> {
    [Append(1, [Put(k, v, None)]), Insert(1)] + ([Unlock(1), Return(1)] + [Return(2)])
  }

  lemma OverwritingEnds(w: World, req: Request, k: string, v: Bytes, b: Bytes) returns (w': World)
    requires Pair(w, Versioned(req, 0, 2), Finished(PlainPut(k, b, None), true), Some(1))
    requires w.tree == map[k := DbRecord(b, None, 1)] && Writes(req, [Put(k, v, None)]) && |w.history| == 2
    ensures Leads(w, Overwriting(k, v), w') && AtRest(w')
    ensures w'.tree == map[k := DbRecord(v, None, 2)]
    ensures w'.log == w.log + [LogEntry(2, Logs(req, [Put(k, v, None)]))]
    ensures w'.trace == w.trace + [LogEntry(2, Put(k, v, None))]
    ensures |w'.history| > 2 && w'.history[2] == Effect(1, req, 0, [Put(k, v, None)], true)
  {
    var mid := Overwritten(w, req, k, v, b);
    w' := BothReturn(mid, req, k, v, b);
    PathConcat(Moves(), w, [Append(1, [Put(k, v, None)]), Insert(1)], mid, [Unlock(1), Return(1)] + [Return(2)], w');
  }

  function LostUpdateSchedule(k: string, v: Bytes, b: Bytes): seq<Action> {
    PutLogged(Cas(k, [], v, None), k, b) + ([Lock(1), CheckCas(1, 0)] + ([Place(2), FetchAdd(1)] + Overwriting(k, v)))
  }

  lemma LostUpdateRuns(k: string, v: Bytes, b: Bytes) returns (w: World)
    ensures Leads(START, LostUpdateSchedule(k, v, b), w) && AtRest(w)
    ensures w.tree == map[k := DbRecord(v, None, 2)]
    ensures w.log == w.trace == [LogEntry(1, Put(k, b, None)), LogEntry(2, Put(k, v, None))]
    ensures |w.history| > 2 && w.history[2] == Effect(1, Cas(k, [], v, None), 0, [Put(k, v, None)], true)
  {
    var req := Cas(k, [], v, None);
    var w1 := PutIsLogged(req, k, b);
    var w2 := CasChecks(w1, k, v, b);
    var w3 := PutPlaced(w2, req, k, b);
    w := OverwritingEnds(w3, req, k, v, b);
    var rest := [Place(2), FetchAdd(1)] + Overwriting(k, v);
    PathConcat(Moves(), w2, [Place(2), FetchAdd(1)], w3, Overwriting(k, v), w);
    PathConcat(Moves(), w1, [Lock(1), CheckCas(1, 0)], w2, rest, w);
    PathConcat(Moves(), START, PutLogged(req, k, b), w1, [Lock(1), CheckCas(1, 0)] + rest, w);
  }

  /** A schedule in which a put is placed between the check and the insertion of a CAS.  In the
      end the ids are consecutive and the tree is what the log says; yet the CAS, which expected
      nothing, succeeded and overwrote the value of the put. */
  lemma LostUpdate(k: string, v: Bytes, b: Bytes)
    requires b != [] && v != b
    ensures var actions := LostUpdateSchedule(k, v, b);
            var w := After(actions);
            && Interleaving(actions) && AtRest(w) && Consecutive(w.log) && w.tree == Fold(w.log) && SameEnds(w)
            && |w.history| > 2 && w.history[2] == Effect(1, Cas(k, [], v, None), 0, [Put(k, v, None)], true)
            && !Replaced(w.log, w.history[2])
  {
    var w := LostUpdateRuns(k, v, b);
    LeadsFromStart(LostUpdateSchedule(k, v, b), w);
    TwoPuts(k, b, v);
    FirstPutShows(w.log, k, v, b);
  }

  lemma FirstPutShows(log: seq<LogEntry>, k: string, v: Bytes, b: Bytes)
    requires log == [LogEntry(1, Put(k, b, None)), LogEntry(2, Put(k, v, None))] && b != [] && v != b
    ensures !Replaced(log, Effect(1, Cas(k, [], v, None), 0, [Put(k, v, None)], true))
  {
    assert log[..1] == [log[0]] && log[..1][..0] == [];
    assert Find(Fold(log[..1]), k) == Some(DbRecord(b, None, 1));
  }

  // --- A put between the check and the insertion of a commit ------------------------------------------

  function CommitOf(k: string, v: Bytes): Request {
    Commit(map[k := Stored(v, None)], 0)
  }

  lemma CommitWrites(k: string, v: Bytes)
    ensures Writes(CommitOf(k, v), [Put(k, v, None)])
  {
    assert [Put(k, v, None)][0].key == k;
  }

  lemma CommitChecks(w: World, k: string, v: Bytes, b: Bytes) returns (w': World)
    requires Two(w, Waiting(CommitOf(k, v)), Recorded(PlainPut(k, b, None), 1)) && w.tree == map[]
    ensures Leads(w, [Lock(1), CheckKey(1, k)], w')
    ensures Pair(w', Checking(CommitOf(k, v), {}), Recorded(PlainPut(k, b, None), 1), Some(1))
    ensures w' == w.(pcs := w'.pcs, owner := Some(1))
  {
    var w1 := Take(w, Lock(1));
    assert PcOf(w1, 1) == Checking(CommitOf(k, v), {k});
    w' := Take(w1, CheckKey(1, k));
    LeadsTwo(w, Lock(1), CheckKey(1, k));
  }

  lemma CommitClears(w: World, k: string, v: Bytes, b: Bytes) returns (w': World)
    requires Pair(w, Checking(CommitOf(k, v), {}), Recorded(PlainPut(k, b, None), 1), Some(1))
    ensures Leads(w, [CheckDone(1)], w')
    ensures Pair(w', Cleared(CommitOf(k, v), 0), Recorded(PlainPut(k, b, None), 1), Some(1))
    ensures w' == w.(pcs := w'.pcs)
  {
    w' := Take(w, CheckDone(1));
    LeadsOne(w, CheckDone(1));
  }

  function MissedConflictSchedule(k: string, v: Bytes, b: Bytes): seq<Action> {
    PutLogged(CommitOf(k, v), k, b) +
    ([Lock(1), CheckKey(1, k)] + ([CheckDone(1)] + ([Place(2), FetchAdd(1)] + Overwriting(k, v))))
  }

  lemma MissedConflictRuns(k: string, v: Bytes, b: Bytes) returns (w: World)
    ensures Leads(START, MissedConflictSchedule(k, v, b), w) && AtRest(w)
    ensures w.tree == map[k := DbRecord(v, None, 2)]
    ensures w.log == [LogEntry(1, Put(k, b, None)), LogEntry(2, TxCommit([Put(k, v, None)]))]
    ensures |w.history| > 2 && w.history[2] == Effect(1, CommitOf(k, v), 0, [Put(k, v, None)], true)
  {
    var req := CommitOf(k, v);
    CommitWrites(k, v);
    var w1 := PutIsLogged(req, k, b);
    var w2 := CommitChecks(w1, k, v, b);
    var w3 := CommitClears(w2, k, v, b);
    var w4 := PutPlaced(w3, req, k, b);
    w := OverwritingEnds(w4, req, k, v, b);
    var rest := [Place(2), FetchAdd(1)] + Overwriting(k, v);
    PathConcat(Moves(), w3, [Place(2), FetchAdd(1)], w4, Overwriting(k, v), w);
    PathConcat(Moves(), w2, [CheckDone(1)], w3, rest, w);
    PathConcat(Moves(), w1, [Lock(1), CheckKey(1, k)], w2, [CheckDone(1)] + rest, w);
    PathConcat(Moves(), START, PutLogged(req, k, b), w1, [Lock(1), CheckKey(1, k)] + ([CheckDone(1)] + rest), w);
  }

  /** The same with a transaction: it commits, although the log has a write of its key newer than
      its snapshot right before it. */
  lemma MissedConflict(k: string, v: Bytes, b: Bytes)
    ensures var actions := MissedConflictSchedule(k, v, b);
            var w := After(actions);
            && Interleaving(actions) && AtRest(w) && Consecutive(w.log)
            && |w.history| > 2 && w.history[2] == Effect(1, CommitOf(k, v), 0, [Put(k, v, None)], true)
            && |w.log| == 2 && !Succeeds(CommitOf(k, v), Fold(w.log[..1]), 0)
  {
    var w := MissedConflictRuns(k, v, b);
    LeadsFromStart(MissedConflictSchedule(k, v, b), w);
    assert w.log[..1] == [w.log[0]] && w.log[..1][..0] == [];
    assert Fold(w.log[..1]) == map[k := DbRecord(b, None, 1)];
    assert k in map[k := Stored(v, None)];
  }

  // --- A snapshot between the log and the insertion of a put --------------------------------------------

  function LostPutSchedule(k: string, v: Bytes): seq<Action> {
    [Call(1, PlainPut(k, v, None)), Stamp(1)] + ([Log(1), Snapshot(2)] + [Place(1), Return(1)])
  }

  lemma LostPutRuns(k: string, v: Bytes) returns (w: World)
    ensures Leads(START, LostPutSchedule(k, v), w) && AtRest(w)
    ensures w.tree == map[k := DbRecord(v, None, 1)] && w.base == map[] && w.cut == |w.log| == 1
  {
    var p := PlainPut(k, v, None);
    var w1 := Take(Take(START, Call(1, p)), Stamp(1));
    LeadsTwo(START, Call(1, p), Stamp(1));
    assert Two(w1, Stamped(p, 1), Idle);
    var w2 := Take(Take(w1, Log(1)), Snapshot(2));
    LeadsTwo(w1, Log(1), Snapshot(2));
    assert Two(w2, Recorded(p, 1), Idle) && w2.base == map[] && w2.cut == |w2.log| == 1 && w2.tree == map[];
    w := LostPutEnds(w2, k, v);
    PathConcat(Moves(), w1, [Log(1), Snapshot(2)], w2, [Place(1), Return(1)], w);
    PathConcat(Moves(), START, [Call(1, p), Stamp(1)], w1, [Log(1), Snapshot(2)] + [Place(1), Return(1)], w);
  }

  lemma LostPutEnds(w: World, k: string, v: Bytes) returns (w': World)
    requires Two(w, Recorded(PlainPut(k, v, None), 1), Idle) && w.tree == map[]
    ensures Leads(w, [Place(1), Return(1)], w') && AtRest(w')
    ensures w'.tree == map[k := DbRecord(v, None, 1)] && w'.base == w.base && w'.cut == w.cut && w'.log == w.log
  {
    var w1 := Take(w, Place(1));
    w' := Take(w1, Return(1));
    LeadsTwo(w, Place(1), Return(1));
  }

  /** A put that is acknowledged, and that a crash right afterwards loses: the snapshot was
      written without it, and took its entry off the log. */
  lemma LostPut(k: string, v: Bytes)
    ensures var actions := LostPutSchedule(k, v);
            var w := After(actions);
            && Interleaving(actions) && AtRest(w)
            && w.tree == map[k := DbRecord(v, None, 1)] && Recovered(w) == map[]
  {
    var w := LostPutRuns(k, v);
    LeadsFromStart(LostPutSchedule(k, v), w);
    assert w.log[w.cut..] == [];
  }

  // --- A CAS between the look and the removal of a get ---------------------------------------------------

  function Stale(k: string, a: Bytes): Request {
    PlainPut(k, a, Some(5))
  }

  function Fresh(k: string, b: Bytes): Request {
    Cas(k, [], b, None)
  }

  /** A record with a TTL is stored. */
  lemma StaleStored(k: string, a: Bytes) returns (w: World)
    ensures Leads(START, [Call(1, Stale(k, a)), Stamp(1)] + [Log(1), Place(1)], w)
    ensures Two(w, Finished(Stale(k, a), true), Idle) && w.version == 1
    ensures w.tree == map[k := DbRecord(a, Some(5), 1)] && w.log == [LogEntry(1, Put(k, a, Some(5)))]
  {
    var p := Stale(k, a);
    var w1 := Take(Take(START, Call(1, p)), Stamp(1));
    LeadsTwo(START, Call(1, p), Stamp(1));
    assert Two(w1, Stamped(p, 1), Idle);
    w := Take(Take(w1, Log(1)), Place(1));
    LeadsTwo(w1, Log(1), Place(1));
    PathConcat(Moves(), START, [Call(1, p), Stamp(1)], w1, [Log(1), Place(1)], w);
  }

  /** It expires, a get looks at it, and a CAS arrives. */
  lemma GetLooks(w: World, k: string, a: Bytes, b: Bytes) returns (w': World)
    requires Two(w, Finished(Stale(k, a), true), Idle) && w.tree == map[k := DbRecord(a, Some(5), 1)]
    ensures Leads(w, [Return(1), Call(2, PlainGet(k))] + [Peek(2, 9), Call(1, Fresh(k, b))], w')
    ensures Two(w', Waiting(Fresh(k, b)), Doomed(PlainGet(k)))
    ensures w'.tree == w.tree && w'.log == w.log && w'.version == w.version
  {
    var w1 := Take(Take(w, Return(1)), Call(2, PlainGet(k)));
    LeadsTwo(w, Return(1), Call(2, PlainGet(k)));
    assert Two(w1, Idle, Waiting(PlainGet(k)));
    w' := Take(Take(w1, Peek(2, 9)), Call(1, Fresh(k, b)));
    LeadsTwo(w1, Peek(2, 9), Call(1, Fresh(k, b)));
    PathConcat(Moves(), w, [Return(1), Call(2, PlainGet(k))], w1, [Peek(2, 9), Call(1, Fresh(k, b))], w');
  }

  /** The CAS passes its check, as the record has expired, ... */
  lemma FreshPasses(w: World, k: string, a: Bytes, b: Bytes) returns (w': World)
    requires Two(w, Waiting(Fresh(k, b)), Doomed(PlainGet(k))) && w.tree == map[k := DbRecord(a, Some(5), 1)]
    ensures Leads(w, [Lock(1), CheckCas(1, 9)], w')
    ensures Pair(w', Cleared(Fresh(k, b), 9), Doomed(PlainGet(k)), Some(1))
    ensures w'.tree == w.tree && w'.log == w.log && w'.version == w.version
  {
    w' := Take(Take(w, Lock(1)), CheckCas(1, 9));
    LeadsTwo(w, Lock(1), CheckCas(1, 9));
  }

  /** ... logs, ... */
  lemma FreshLogs(w: World, k: string, b: Bytes) returns (w': World)
    requires Pair(w, Cleared(Fresh(k, b), 9), Doomed(PlainGet(k)), Some(1)) && w.version == 1
    ensures Leads(w, [FetchAdd(1), Append(1, [Put(k, b, None)])], w')
    ensures Pair(w', Inserting(Fresh(k, b), 2, [Put(k, b, None)], 0), Doomed(PlainGet(k)), Some(1))
    ensures w'.tree == w.tree && w'.log == w.log + [LogEntry(2, Put(k, b, None))]
  {
    w' := Take(Take(w, FetchAdd(1)), Append(1, [Put(k, b, None)]));
    LeadsTwo(w, FetchAdd(1), Append(1, [Put(k, b, None)]));
  }

  /** ... and stores its value. */
  lemma FreshStored(w: World, k: string, b: Bytes) returns (w': World)
    requires Pair(w, Inserting(Fresh(k, b), 2, [Put(k, b, None)], 0), Doomed(PlainGet(k)), Some(1))
    ensures Leads(w, [Insert(1), Unlock(1)], w')
    ensures Two(w', Finished(Fresh(k, b), true), Doomed(PlainGet(k)))
    ensures w'.tree == w.tree[k := DbRecord(b, None, 2)] && w'.log == w.log
  {
    w' := Take(Take(w, Insert(1)), Unlock(1));
    LeadsTwo(w, Insert(1), Unlock(1));
  }

  /** The get removes it. */
  lemma FreshRemoved(w: World, k: string, b: Bytes) returns (w': World)
    requires Two(w, Finished(Fresh(k, b), true), Doomed(PlainGet(k))) && w.tree.Keys == {k}
    ensures Leads(w, [Evict(2), Return(1)] + [Return(2)], w')
    ensures AtRest(w') && w'.tree == map[] && w'.log == w.log
  {
    var w1 := GetRemoves(w, k, b);
    w' := Take(w1, Return(2));
    LeadsOne(w1, Return(2));
    PathConcat(Moves(), w, [Evict(2), Return(1)], w1, [Return(2)], w');
  }

  lemma GetRemoves(w: World, k: string, b: Bytes) returns (w': World)
    requires Two(w, Finished(Fresh(k, b), true), Doomed(PlainGet(k))) && w.tree.Keys == {k}
    ensures Leads(w, [Evict(2), Return(1)], w')
    ensures Two(w', Idle, Finished(PlainGet(k), false)) && w'.tree == map[] && w'.log == w.log
  {
    w' := Take(Take(w, Evict(2)), Return(1));
    LeadsTwo(w, Evict(2), Return(1));
  }

  /** What client 1 does with its CAS. */
  function FreshCas(k: string, b: Bytes): seq<Action> {
    [Lock(1), CheckCas(1, 9)] + ([FetchAdd(1), Append(1, [Put(k, b, None)])] + [Insert(1), Unlock(1)])
  }

  lemma FreshDone(w: World, k: string, a: Bytes, b: Bytes) returns (w': World)
    requires Two(w, Waiting(Fresh(k, b)), Doomed(PlainGet(k)))
    requires w.tree == map[k := DbRecord(a, Some(5), 1)] && w.version == 1
    ensures Leads(w, FreshCas(k, b), w') && Two(w', Finished(Fresh(k, b), true), Doomed(PlainGet(k)))
    ensures w'.tree == map[k := DbRecord(b, None, 2)] && w'.log == w.log + [LogEntry(2, Put(k, b, None))]
  {
    var w1 := FreshPasses(w, k, a, b);
    var w2 := FreshLogs(w1, k, b);
    w' := FreshStored(w2, k, b);
    var logs := [FetchAdd(1), Append(1, [Put(k, b, None)])];
    PathConcat(Moves(), w1, logs, w2, [Insert(1), Unlock(1)], w');
    PathConcat(Moves(), w, [Lock(1), CheckCas(1, 9)], w1, logs + [Insert(1), Unlock(1)], w');
  }

  function FreshEvictedSchedule(k: string, a: Bytes, b: Bytes): seq<Action> {
    ([Call(1, Stale(k, a)), Stamp(1)] + [Log(1), Place(1)]) +
    (([Return(1), Call(2, PlainGet(k))] + [Peek(2, 9), Call(1, Fresh(k, b))]) +
     (FreshCas(k, b) + ([Evict(2), Return(1)] + [Return(2)])))
  }

  /** A CAS succeeds and returns; the record it stored, which never expires, is gone. */
  lemma FreshEvicted(k: string, a: Bytes, b: Bytes)
    ensures var actions := FreshEvictedSchedule(k, a, b);
            var w := After(actions);
            && Interleaving(actions) && AtRest(w) && w.tree == map[]
            && Find(Fold(w.log), k) == Some(DbRecord(b, None, 2))
  {
    var w1 := StaleStored(k, a);
    var w2 := GetLooks(w1, k, a, b);
    var w3 := FreshDone(w2, k, a, b);
    var w := FreshRemoved(w3, k, b);
    var looks := [Return(1), Call(2, PlainGet(k))] + [Peek(2, 9), Call(1, Fresh(k, b))];
    var ends := [Evict(2), Return(1)] + [Return(2)];
    PathConcat(Moves(), w2, FreshCas(k, b), w3, ends, w);
    PathConcat(Moves(), w1, looks, w2, FreshCas(k, b) + ends, w);
    PathConcat(Moves(), START, [Call(1, Stale(k, a)), Stamp(1)] + [Log(1), Place(1)], w1,
               looks + (FreshCas(k, b) + ends), w);
    LeadsFromStart(FreshEvictedSchedule(k, a, b), w);
    SecondShows(w.log, k, a, b);
  }

  lemma SecondShows(log: seq<LogEntry>, k: string, a: Bytes, b: Bytes)
    requires log == [LogEntry(1, Put(k, a, Some(5)))] + [LogEntry(2, Put(k, b, None))]
    ensures Find(Fold(log), k) == Some(DbRecord(b, None, 2))
  {
    FoldSnoc([LogEntry(1, Put(k, a, Some(5)))], LogEntry(2, Put(k, b, None)));
  }
}
