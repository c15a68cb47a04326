/**
 Put and delete clients among the CAS and commit clients: what holds in every interleaving,
 and exactly when the tree ends up as the log says.
 */
module PlainWrites {
  import opened Prelude
  import opened Store
  import opened Concurrency

  // --- The tree is what the changes made of it ---------------------------------------------------

  lemma ChangeTraced(w: World, id: nat, cmd: WalCommand)
    requires w.tree == Fold(w.trace)
    ensures Change(w, id, cmd).tree == Fold(Change(w, id, cmd).trace)
  {
    if !cmd.TxCommit? {
      FoldSnoc(w.trace, LogEntry(id, cmd));
    }
  }

  lemma TakeTraced(w: World, a: Action)
    requires w.tree == Fold(w.trace)
    ensures Take(w, a).tree == Fold(Take(w, a).trace)
  {
    var pc := PcOf(w, a.c);
    match a
    case Insert(c) =>
      if pc.Inserting? && pc.next < |pc.cmds| {
        ChangeTraced(Go(w, c, pc.(next := pc.next + 1)), pc.version, pc.cmds[pc.next]);
      }
    case Erase(c) =>
      if pc.Found? && pc.req.PlainDelete? {
        ChangeTraced(Go(w, c, Erased(pc.req)), 0, Delete(pc.req.key));
      }
    case Place(c) =>
      if pc.Recorded? && pc.req.PlainPut? {
        ChangeTraced(Go(w, c, Finished(pc.req, true)), pc.version, Put(pc.req.key, pc.req.value, pc.req.expiresAt));
      }
    case Evict(c) =>
      if pc.Doomed? && pc.req.PlainGet? {
        ChangeTraced(Go(w, c, Finished(pc.req, false)), 0, Delete(pc.req.key));
      }
    case _ =>
  }

  lemma {:induction false} Traced(actions: seq<Action>)
    ensures After(actions).tree == Fold(After(actions).trace)
  {
    if actions != [] {
      Traced(actions[..|actions| - 1]);
      TakeTraced(After(actions[..|actions| - 1]), actions[|actions| - 1]);
    }
  }

  // --- Ids -------------------------------------------------------------------------------------------

  /** The version a client has taken and not yet logged. */
  function Taken(pc: Pc): Option<nat> {
    if pc.Versioned? then Some(pc.version) else if pc.Stamped? then Some(pc.version) else None
  }

  predicate IdLogged(log: seq<LogEntry>, v: nat) {
    exists i :: 0 <= i < |log| && log[i].id == v
  }

  ghost predicate DistinctIds(log: seq<LogEntry>) {
    forall i, j :: 0 <= i < j < |log| ==> log[i].id != log[j].id
  }

  ghost predicate IsTaken(w: World, v: nat) {
    exists c: Client :: Taken(PcOf(w, c)) == Some(v)
  }

  ghost predicate Free(w: World, pc: Pc) {
    Taken(pc).Some? ==> 1 <= Taken(pc).value <= w.version && !IdLogged(w.log, Taken(pc).value)
  }

  predicate Apart(pc: Pc, pc': Pc) {
    Taken(pc).Some? ==> Taken(pc) != Taken(pc')
  }

  /** Each version so far is in the log once or in the hands of one client. */
  ghost predicate Ids(w: World) {
    && DistinctIds(w.log)
    && (forall i :: 0 <= i < |w.log| ==> 1 <= w.log[i].id <= w.version)
    && (forall c: Client :: Free(w, PcOf(w, c)))
    && (forall c: Client, c': Client :: c != c' ==> Apart(PcOf(w, c), PcOf(w, c')))
    && (forall v :: 1 <= v <= w.version ==> IdLogged(w.log, v) || IsTaken(w, v))
  }

  /** A client that takes the next version. */
  lemma TakesVersion(w: World, c: Client, pc: Pc)
    requires Ids(w) && Taken(PcOf(w, c)).None? && Taken(pc) == Some(w.version + 1)
    ensures Ids(Go(w, c, pc).(version := w.version + 1))
  {
    var w' := Go(w, c, pc).(version := w.version + 1);
    forall c': Client ensures Free(w', PcOf(w', c')) && (c' != c ==> Taken(PcOf(w, c')) != Some(w.version + 1)) {
      assert Free(w, PcOf(w, c'));
      assert forall i :: 0 <= i < |w.log| ==> w.log[i].id <= w.version;
    }
    forall c1: Client, c2: Client | c1 != c2 ensures Apart(PcOf(w', c1), PcOf(w', c2)) {
      assert Apart(PcOf(w, c1), PcOf(w, c2));
    }
    forall v | 1 <= v <= w'.version ensures IdLogged(w'.log, v) || IsTaken(w', v) {
      if v == w'.version {
        assert Taken(PcOf(w', c)) == Some(v);
      } else if !IdLogged(w.log, v) {
        var c' :| Taken(PcOf(w, c')) == Some(v);
        assert Taken(PcOf(w', c')) == Some(v);
      }
    }
  }

  lemma IdLoggedSnoc(log: seq<LogEntry>, e: LogEntry, v: nat)
    ensures IdLogged(log + [e], v) <==> IdLogged(log, v) || v == e.id
  {
    assert (log + [e])[|log|] == e;
    if IdLogged(log, v) {
      var i :| 0 <= i < |log| && log[i].id == v;
      assert (log + [e])[i].id == v;
    }
  }

  /** A client that logs under the version it has taken. */
  lemma LogsVersion(w: World, c: Client, pc: Pc, e: LogEntry)
    requires Ids(w) && Taken(PcOf(w, c)) == Some(e.id) && Taken(pc).None?
    ensures Ids(Go(w, c, pc).(log := w.log + [e]))
  {
    var w' := Go(w, c, pc).(log := w.log + [e]);
    forall v { IdLoggedSnoc(w.log, e, v); }
    assert Free(w, PcOf(w, c));
    forall i | 0 <= i < |w.log| ensures w.log[i].id != e.id {
      assert !IdLogged(w.log, e.id);
    }
    forall c': Client ensures Free(w', PcOf(w', c')) {
      assert Free(w, PcOf(w, c')) && (c != c' ==> Apart(PcOf(w, c), PcOf(w, c')));
      if c' != c && Taken(PcOf(w, c')).Some? {
        IdLoggedSnoc(w.log, e, Taken(PcOf(w, c')).value);
      }
    }
    forall c1: Client, c2: Client | c1 != c2 ensures Apart(PcOf(w', c1), PcOf(w', c2)) {
      assert Apart(PcOf(w, c1), PcOf(w, c2));
    }
    forall v | 1 <= v <= w'.version ensures IdLogged(w'.log, v) || IsTaken(w', v) {
      if !IdLogged(w'.log, v) {
        var c' :| Taken(PcOf(w, c')) == Some(v);
        assert Taken(PcOf(w', c')) == Some(v);
      }
    }
  }

  /** A step that neither takes a version nor logs. */
  lemma KeepsIds(w: World, w': World)
    requires Ids(w) && w'.log == w.log && w'.version == w.version
    requires forall c': Client :: Taken(PcOf(w', c')) == Taken(PcOf(w, c'))
    ensures Ids(w')
  {
    forall c': Client ensures Free(w', PcOf(w', c')) { assert Free(w, PcOf(w, c')); }
    forall c1: Client, c2: Client | c1 != c2 ensures Apart(PcOf(w', c1), PcOf(w', c2)) {
      assert Apart(PcOf(w, c1), PcOf(w, c2));
    }
    forall v | 1 <= v <= w'.version ensures IdLogged(w'.log, v) || IsTaken(w', v) {
      if !IdLogged(w.log, v) {
        var c' :| Taken(PcOf(w, c')) == Some(v);
        assert Taken(PcOf(w', c')) == Some(v);
      }
    }
  }

  predicate TouchesIds(a: Action) {
    a.FetchAdd? || a.Stamp? || a.Append? || a.Log?
  }

  lemma OtherSteps(w: World, a: Action)
    requires Enabled(w, a) && !TouchesIds(a)
    ensures Take(w, a).log == w.log && Take(w, a).version == w.version
    ensures Taken(PcOf(Take(w, a), a.c)) == Taken(PcOf(w, a.c)) == None
    ensures forall c': Client :: c' != a.c ==> PcOf(Take(w, a), c') == PcOf(w, c')
  {
  }

  lemma TakeIds(w: World, a: Action)
    requires Ids(w) && Enabled(w, a)
    ensures Ids(Take(w, a))
  {
    var c, pc := a.c, PcOf(w, a.c);
    match a
    case FetchAdd(_) => TakesVersion(w, c, Versioned(pc.req, pc.now, w.version + 1));
    case Stamp(_) => TakesVersion(w, c, Stamped(pc.req, w.version + 1));
    case Append(_, _) => AppendIds(w, a);
    case Log(_) =>
      LogsVersion(w, c, if pc.req.PlainPut? then Recorded(pc.req, pc.version) else Finished(pc.req, true),
                  LogEntry(pc.version, Logs(pc.req, [])));
    case _ =>
      OtherSteps(w, a);
      KeepsIds(w, Take(w, a));
  }

  lemma AppendIds(w: World, a: Action)
    requires Ids(w) && Enabled(w, a) && a.Append?
    ensures Ids(Take(w, a))
  {
    var c, pc := a.c, PcOf(w, a.c);
    var pc', e := Inserting(pc.req, pc.version, a.cmds, 0), LogEntry(pc.version, Logs(pc.req, a.cmds));
    LogsVersion(w, c, pc', e);
    KeepsIds(Go(w, c, pc').(log := w.log + [e]), Take(w, a));
  }

  lemma {:induction false} IdsHold(actions: seq<Action>)
    requires Interleaving(actions)
    ensures Ids(After(actions))
  {
    if actions != [] {
      var last := |actions| - 1;
      IdsHold(actions[..last]);
      TakeIds(After(actions[..last]), actions[last]);
    }
  }

  // --- What is inserted was logged -----------------------------------------------------------------------

  /** The log stores this value for `k` under the id. */
  ghost predicate InLog(log: seq<LogEntry>, id: nat, k: string, w: Write) {
    exists j :: 0 <= j < |log| && log[j].id == id && WriteOf(log[j].cmd, k) == Some(w)
  }

  lemma InLogSnoc(log: seq<LogEntry>, e: LogEntry, id: nat, k: string, w: Write)
    requires InLog(log, id, k, w)
    ensures InLog(log + [e], id, k, w)
  {
    var j :| 0 <= j < |log| && log[j].id == id && WriteOf(log[j].cmd, k) == Some(w);
    assert (log + [e])[j] == log[j];
  }

  ghost predicate LoggedCommand(log: seq<LogEntry>, id: nat, cmd: WalCommand) {
    cmd.Put? ==> InLog(log, id, cmd.key, Stored(cmd.value, cmd.expiresAt))
  }

  ghost predicate LoggedChange(log: seq<LogEntry>, e: LogEntry) {
    !e.cmd.TxCommit? && LoggedCommand(log, e.id, e.cmd)
  }

  ghost predicate LoggedPc(log: seq<LogEntry>, pc: Pc) {
    && (pc.Inserting? ==> forall i :: 0 <= i < |pc.cmds| ==> LoggedCommand(log, pc.version, pc.cmds[i]))
    && (pc.Recorded? && pc.req.PlainPut? ==> InLog(log, pc.version, pc.req.key, Stored(pc.req.value, pc.req.expiresAt)))
  }

  /** Every value that was inserted, or is about to be, is in the log under its id. */
  ghost predicate LoggedFirst(w: World) {
    && (forall i :: 0 <= i < |w.trace| ==> LoggedChange(w.log, w.trace[i]))
    && (forall c: Client :: LoggedPc(w.log, PcOf(w, c)))
  }

  lemma AppendKeepsLogged(w: World, c: Client, pc: Pc, e: LogEntry)
    requires LoggedFirst(w) && LoggedPc(w.log + [e], pc)
    ensures LoggedFirst(Go(w, c, pc).(log := w.log + [e]))
  {
    forall id, k, x | InLog(w.log, id, k, x) ensures InLog(w.log + [e], id, k, x) { InLogSnoc(w.log, e, id, k, x); }
    var w' := Go(w, c, pc).(log := w.log + [e]);
    forall c': Client ensures LoggedPc(w'.log, PcOf(w', c')) {
      assert LoggedPc(w.log, PcOf(w, c'));
    }
  }

  lemma SamePcs(w: World, w': World)
    requires LoggedFirst(w) && w'.log == w.log && w'.trace == w.trace && w'.pcs == w.pcs
    ensures LoggedFirst(w')
  {
    forall c: Client ensures LoggedPc(w'.log, PcOf(w', c)) { assert LoggedPc(w.log, PcOf(w, c)); }
  }

  /** An appended request has all its commands in the log. */
  lemma AppendedCommands(log: seq<LogEntry>, id: nat, req: Request, cmds: seq<WalCommand>, i: nat)
    requires Writes(req, cmds) && i < |cmds|
    ensures LoggedCommand(log + [LogEntry(id, Logs(req, cmds))], id, cmds[i])
  {
    var e := LogEntry(id, Logs(req, cmds));
    assert (log + [e])[|log|] == e;
    if req.Commit? && cmds[i].Put? {
      ListedWrite(cmds, req.ws, cmds[i].key);
      assert WriteOf(e.cmd, cmds[i].key) == Some(Stored(cmds[i].value, cmds[i].expiresAt));
    }
  }

  lemma AppendLogged(w: World, a: Action)
    requires LoggedFirst(w) && Enabled(w, a) && a.Append?
    ensures LoggedFirst(Take(w, a))
  {
    var c, pc, cmds := a.c, PcOf(w, a.c), a.cmds;
    var pc', e := Inserting(pc.req, pc.version, cmds, 0), LogEntry(pc.version, Logs(pc.req, cmds));
    forall i | 0 <= i < |cmds| ensures LoggedCommand(w.log + [e], pc.version, cmds[i]) {
      AppendedCommands(w.log, pc.version, pc.req, cmds, i);
    }
    AppendKeepsLogged(w, c, pc', e);
    SamePcs(Go(w, c, pc').(log := w.log + [e]), Take(w, a));
  }

  lemma LogLogged(w: World, a: Action)
    requires LoggedFirst(w) && Enabled(w, a) && a.Log?
    ensures LoggedFirst(Take(w, a))
  {
    var pc := PcOf(w, a.c);
    var e := LogEntry(pc.version, Logs(pc.req, []));
    assert (w.log + [e])[|w.log|] == e;
    AppendKeepsLogged(w, a.c, if pc.req.PlainPut? then Recorded(pc.req, pc.version) else Finished(pc.req, true), e);
  }

  lemma TakeLogged(w: World, a: Action)
    requires LoggedFirst(w) && Enabled(w, a)
    ensures LoggedFirst(Take(w, a))
  {
    match a
    case Append(_, _) => AppendLogged(w, a);
    case Log(_) => LogLogged(w, a);
    case FetchAdd(_) => PcKeepsLogged(w, Take(w, a), a.c);
    case Stamp(_) => PcKeepsLogged(w, Take(w, a), a.c);
    case _ =>
      OtherSteps(w, a);
      OtherLogged(w, a);
      PcKeepsLogged(w, Take(w, a), a.c);
  }

  /** Changes to the tree are made by clients that have logged them. */
  lemma OtherLogged(w: World, a: Action)
    requires LoggedFirst(w) && Enabled(w, a) && !TouchesIds(a)
    ensures LoggedPc(w.log, PcOf(Take(w, a), a.c))
    ensures forall i :: 0 <= i < |Take(w, a).trace| ==> LoggedChange(w.log, Take(w, a).trace[i])
  {
    assert LoggedPc(w.log, PcOf(w, a.c));
  }

  lemma PcKeepsLogged(w: World, w': World, c: Client)
    requires LoggedFirst(w) && w'.log == w.log && LoggedPc(w.log, PcOf(w', c))
    requires forall i :: 0 <= i < |w'.trace| ==> LoggedChange(w.log, w'.trace[i])
    requires forall c': Client :: c' != c ==> PcOf(w', c') == PcOf(w, c')
    ensures LoggedFirst(w')
  {
    forall c': Client ensures LoggedPc(w'.log, PcOf(w', c')) {
      assert LoggedPc(w.log, PcOf(w, c'));
    }
  }

  lemma {:induction false} LoggedHolds(actions: seq<Action>)
    requires Interleaving(actions)
    ensures LoggedFirst(After(actions))
  {
    if actions != [] {
      var last := |actions| - 1;
      LoggedHolds(actions[..last]);
      TakeLogged(After(actions[..last]), actions[last]);
    }
  }

  // --- What is logged gets inserted ------------------------------------------------------------------------

  predicate Stores(w: Option<Write>) {
    w.Some? && w.value.Stored?
  }

  /** A value was inserted for `k` under the id. */
  ghost predicate InTrace(trace: seq<LogEntry>, id: nat, k: string) {
    exists i :: 0 <= i < |trace| && trace[i].id == id && Stores(WriteOf(trace[i].cmd, k))
  }

  /** A value was logged for `k` under the id. */
  ghost predicate StoredInLog(log: seq<LogEntry>, id: nat, k: string) {
    exists j :: 0 <= j < |log| && log[j].id == id && Stores(WriteOf(log[j].cmd, k))
  }

  /** A client that has logged a value for `k` under the id and has yet to insert it. */
  ghost predicate Owes(pc: Pc, id: nat, k: string) {
    || (pc.Recorded? && pc.req.PlainPut? && pc.version == id && pc.req.key == k)
    || (pc.Inserting? && pc.version == id && exists i :: pc.next <= i < |pc.cmds| && Stores(WriteOne(pc.cmds[i], k)))
  }

  ghost predicate Owed(w: World, id: nat, k: string) {
    exists c: Client :: Owes(PcOf(w, c), id, k)
  }

  ghost predicate InsertedOrOwed(w: World) {
    forall id, k :: StoredInLog(w.log, id, k) ==> InTrace(w.trace, id, k) || Owed(w, id, k)
  }

  lemma InTraceSnoc(trace: seq<LogEntry>, e: LogEntry, id: nat, k: string)
    ensures InTrace(trace, id, k) || (e.id == id && Stores(WriteOf(e.cmd, k))) ==> InTrace(trace + [e], id, k)
  {
    assert (trace + [e])[|trace|] == e;
    if InTrace(trace, id, k) {
      var i :| 0 <= i < |trace| && trace[i].id == id && Stores(WriteOf(trace[i].cmd, k));
      assert (trace + [e])[i] == trace[i];
    }
  }

  /** A change discharges what its client owed for it. */
  lemma ChangeDischarges(w: World, c: Client, pc: Pc, id: nat, cmd: WalCommand)
    requires InsertedOrOwed(w) && !cmd.TxCommit?
    requires forall id', k :: Owes(PcOf(w, c), id', k) ==> Owes(pc, id', k) || (id' == id && Stores(WriteOf(cmd, k)))
    ensures InsertedOrOwed(Change(Go(w, c, pc), id, cmd))
  {
    var w' := Change(Go(w, c, pc), id, cmd);
    forall id', k | StoredInLog(w'.log, id', k) ensures InTrace(w'.trace, id', k) || Owed(w', id', k) {
      InTraceSnoc(w.trace, LogEntry(id, cmd), id', k);
      if !InTrace(w'.trace, id', k) {
        var c' :| Owes(PcOf(w, c'), id', k);
        assert Owes(PcOf(w', c'), id', k);
      }
    }
  }

  /** A client that logs an entry owes all the values in it, unless it stores none. */
  lemma LogsOwing(w: World, c: Client, pc: Pc, e: LogEntry)
    requires InsertedOrOwed(w)
    requires forall k :: Stores(WriteOf(e.cmd, k)) ==> Owes(pc, e.id, k)
    requires forall id, k :: !Owes(PcOf(w, c), id, k)
    ensures InsertedOrOwed(Go(w, c, pc).(log := w.log + [e]))
  {
    var w' := Go(w, c, pc).(log := w.log + [e]);
    forall id, k | StoredInLog(w'.log, id, k) ensures InTrace(w'.trace, id, k) || Owed(w', id, k) {
      var j :| 0 <= j < |w'.log| && w'.log[j].id == id && Stores(WriteOf(w'.log[j].cmd, k));
      if j < |w.log| {
        assert w.log[j].id == id && Stores(WriteOf(w.log[j].cmd, k));
        assert StoredInLog(w.log, id, k);
        if !InTrace(w.trace, id, k) {
          var c' :| Owes(PcOf(w, c'), id, k);
          assert Owes(PcOf(w', c'), id, k);
        }
      } else {
        assert Owes(PcOf(w', c), id, k);
      }
    }
  }

  /** A step that neither logs nor inserts, of a client that owes nothing. */
  lemma KeepsOwing(w: World, w': World, c: Client)
    requires InsertedOrOwed(w) && w'.log == w.log && w'.trace == w.trace
    requires forall c': Client :: c' != c ==> PcOf(w', c') == PcOf(w, c')
    requires forall id, k :: Owes(PcOf(w, c), id, k) ==> Owes(PcOf(w', c), id, k)
    ensures InsertedOrOwed(w')
  {
    forall id, k | StoredInLog(w'.log, id, k) ensures InTrace(w'.trace, id, k) || Owed(w', id, k) {
      if !InTrace(w.trace, id, k) {
        var c' :| Owes(PcOf(w, c'), id, k);
        assert Owes(PcOf(w', c'), id, k);
      }
    }
  }

  lemma {:induction false} WriteAllIsOne(cmds: seq<WalCommand>, k: string)
    requires Stores(WriteAll(cmds, k))
    ensures exists i :: 0 <= i < |cmds| && Stores(WriteOne(cmds[i], k))
  {
    var last := |cmds| - 1;
    if WriteOne(cmds[last], k).None? {
      WriteAllIsOne(cmds[..last], k);
      var i :| 0 <= i < last && Stores(WriteOne(cmds[i], k));
      assert Stores(WriteOne(cmds[i], k));
    }
  }

  lemma AppendOwes(req: Request, version: nat, cmds: seq<WalCommand>, k: string)
    requires Writes(req, cmds) && Stores(WriteOf(Logs(req, cmds), k))
    ensures Owes(Inserting(req, version, cmds, 0), version, k)
  {
    if req.Commit? {
      WriteAllIsOne(cmds, k);
    } else {
      assert Stores(WriteOne(cmds[0], k));
    }
  }

  lemma InsertOwing(w: World, c: Client)
    requires InsertedOrOwed(w) && Enabled(w, Insert(c))
    ensures InsertedOrOwed(Take(w, Insert(c)))
  {
    var pc := PcOf(w, c);
    var pc', cmd := pc.(next := pc.next + 1), pc.cmds[pc.next];
    forall id, k | Owes(pc, id, k) ensures Owes(pc', id, k) || (id == pc.version && Stores(WriteOne(cmd, k))) {
      var i :| pc.next <= i < |pc.cmds| && Stores(WriteOne(pc.cmds[i], k));
      assert i > pc.next ==> pc'.next <= i;
    }
    if cmd.TxCommit? {
      KeepsOwing(w, Take(w, Insert(c)), c);
    } else {
      ChangeDischarges(w, c, pc', pc.version, cmd);
    }
  }

  lemma TakeOwing(w: World, a: Action)
    requires InsertedOrOwed(w) && Enabled(w, a)
    ensures InsertedOrOwed(Take(w, a))
  {
    var c, pc, w' := a.c, PcOf(w, a.c), Take(w, a);
    match a
    case Insert(_) => InsertOwing(w, c);
    case Append(_, cmds) =>
      var pc', e := Inserting(pc.req, pc.version, cmds, 0), LogEntry(pc.version, Logs(pc.req, cmds));
      forall k | Stores(WriteOf(e.cmd, k)) ensures Owes(pc', e.id, k) { AppendOwes(pc.req, pc.version, cmds, k); }
      LogsOwing(w, c, pc', e);
      KeepsOwing(Go(w, c, pc').(log := w.log + [e]), w', c);
    case Log(_) =>
      LogsOwing(w, c, if pc.req.PlainPut? then Recorded(pc.req, pc.version) else Finished(pc.req, true),
                LogEntry(pc.version, Logs(pc.req, [])));
    case Erase(_) => ChangeDischarges(w, c, Erased(pc.req), 0, Delete(pc.req.key));
    case Evict(_) => ChangeDischarges(w, c, Finished(pc.req, false), 0, Delete(pc.req.key));
    case Place(_) =>
      ChangeDischarges(w, c, Finished(pc.req, true), pc.version, Put(pc.req.key, pc.req.value, pc.req.expiresAt));
    case _ => KeepsOwing(w, w', c);
  }

  lemma {:induction false} OwingHolds(actions: seq<Action>)
    requires Interleaving(actions)
    ensures InsertedOrOwed(After(actions))
  {
    if actions != [] {
      var last := |actions| - 1;
      OwingHolds(actions[..last]);
      TakeOwing(After(actions[..last]), actions[last]);
    }
  }

  // --- Main theorems -----------------------------------------------------------------------------------------

  ghost predicate AtRest(w: World) {
    forall c: Client :: PcOf(w, c).Idle?
  }

  /** At rest every value that was logged has been inserted, under the same id, and nothing
      else has; and each version is in the log exactly once. */
  lemma RestSettles(actions: seq<Action>)
    requires Interleaving(actions) && AtRest(After(actions))
    ensures var w := After(actions);
            && (forall id, k :: StoredInLog(w.log, id, k) <==> InTrace(w.trace, id, k))
            && DistinctIds(w.log)
            && (forall v: nat :: IdLogged(w.log, v) <==> 1 <= v <= w.version)
  {
    var w := After(actions);
    IdsHold(actions);
    LoggedHolds(actions);
    OwingHolds(actions);
    forall id, k ensures StoredInLog(w.log, id, k) <==> InTrace(w.trace, id, k) {
      assert !Owed(w, id, k);
      if InTrace(w.trace, id, k) {
        TraceInLog(w, id, k);
      }
    }
    forall v | 1 <= v <= w.version ensures IdLogged(w.log, v) {
      assert !IsTaken(w, v);
    }
  }

  lemma TraceInLog(w: World, id: nat, k: string)
    requires LoggedFirst(w) && InTrace(w.trace, id, k)
    ensures StoredInLog(w.log, id, k)
  {
    var i :| 0 <= i < |w.trace| && w.trace[i].id == id && Stores(WriteOf(w.trace[i].cmd, k));
    assert LoggedChange(w.log, w.trace[i]);
    var cmd := w.trace[i].cmd;
    var j :| 0 <= j < |w.log| && w.log[j].id == id &&
        WriteOf(w.log[j].cmd, k) == Some(Stored(cmd.value, cmd.expiresAt));
    assert Stores(WriteOf(w.log[j].cmd, k));
  }

  /** The id of the value a key ends with; none if it ends without one. */
  function FinalId(log: seq<LogEntry>, k: string): Option<nat> {
    var last := LastWrite(log, k);
    if last.Some? && last.value.1.Stored? then Some(last.value.0) else None
  }

  lemma {:induction false} LastWriteIsIn(log: seq<LogEntry>, k: string)
    requires LastWrite(log, k).Some?
    ensures exists i :: 0 <= i < |log| && log[i].id == LastWrite(log, k).value.0 &&
                        WriteOf(log[i].cmd, k) == Some(LastWrite(log, k).value.1)
  {
    var last := |log| - 1;
    if WriteOf(log[last].cmd, k).None? {
      LastWriteIsIn(log[..last], k);
      var i :| 0 <= i < last && log[..last][i].id == LastWrite(log, k).value.0 &&
               WriteOf(log[..last][i].cmd, k) == Some(LastWrite(log, k).value.1);
      assert log[i] == log[..last][i];
    }
  }

  /** Under one id, tree and log hold one value. */
  lemma SameIdSameValue(w: World, k: string)
    requires Ids(w) && LoggedFirst(w)
    requires FinalId(w.trace, k).Some? && FinalId(w.trace, k) == FinalId(w.log, k)
    ensures LastWrite(w.trace, k) == LastWrite(w.log, k)
  {
    LastWriteIsIn(w.trace, k);
    LastWriteIsIn(w.log, k);
    var id := FinalId(w.log, k).value;
    var i :| 0 <= i < |w.trace| && w.trace[i].id == id &&
        WriteOf(w.trace[i].cmd, k) == Some(LastWrite(w.trace, k).value.1);
    var j :| 0 <= j < |w.log| && w.log[j].id == id && WriteOf(w.log[j].cmd, k) == Some(LastWrite(w.log, k).value.1);
    assert LoggedChange(w.log, w.trace[i]);
    var j' :| 0 <= j' < |w.log| && w.log[j'].id == id &&
        WriteOf(w.log[j'].cmd, k) == Some(LastWrite(w.trace, k).value.1);
    assert j == j';
  }

  lemma FinalIdDecides(w: World, k: string)
    requires Ids(w) && LoggedFirst(w)
    ensures Find(Fold(w.trace), k) == Find(Fold(w.log), k) <==> FinalId(w.trace, k) == FinalId(w.log, k)
  {
    FoldAt(w.trace, k);
    FoldAt(w.log, k);
    if FinalId(w.trace, k).Some? && FinalId(w.trace, k) == FinalId(w.log, k) {
      SameIdSameValue(w, k);
    }
  }

  ghost predicate SameEnds(w: World) {
    forall k :: FinalId(w.trace, k) == FinalId(w.log, k)
  }

  /** Main theorem: in every interleaving of puts, deletes, CAS and commits, the tree is what
      the log says if and only if the value that each key was given last is the one that was
      logged last for it. */
  lemma TreeMatchesLog(actions: seq<Action>)
    requires Interleaving(actions)
    ensures var w := After(actions); w.tree == Fold(w.log) <==> SameEnds(w)
  {
    var w := After(actions);
    Traced(actions);
    IdsHold(actions);
    LoggedHolds(actions);
    forall k ensures Find(w.tree, k) == Find(Fold(w.log), k) <==> FinalId(w.trace, k) == FinalId(w.log, k) {
      FinalIdDecides(w, k);
    }
    if SameEnds(w) {
      TreesEqual(w.tree, Fold(w.log));
    }
  }

  // --- Ids in order ----------------------------------------------------------------------------------------------

  /** Nobody else holds a smaller version. */
  ghost predicate Oldest(w: World, c: Client) {
    Taken(PcOf(w, c)).Some? &&
    forall c': Client :: Taken(PcOf(w, c')).Some? ==> Taken(PcOf(w, c)).value <= Taken(PcOf(w, c')).value
  }

  predicate Appends(a: Action) {
    a.Append? || a.Log?
  }

  lemma ConsecutiveIds(log: seq<LogEntry>, v: nat)
    requires Consecutive(log)
    ensures IdLogged(log, v) <==> 1 <= v <= |log|
  {
    if 1 <= v <= |log| {
      assert log[v - 1].id == v;
    }
  }

  /** With consecutive ids so far, the next one is held by the oldest client. */
  lemma OldestIsNext(w: World, c: Client)
    requires Ids(w) && Consecutive(w.log) && Taken(PcOf(w, c)).Some?
    ensures Oldest(w, c) <==> Taken(PcOf(w, c)).value == |w.log| + 1
  {
    var v, next := Taken(PcOf(w, c)).value, |w.log| + 1;
    forall u { ConsecutiveIds(w.log, u); }
    forall c': Client | Taken(PcOf(w, c')).Some?
        ensures Taken(PcOf(w, c')).value >= next { assert Free(w, PcOf(w, c')); }
    assert Free(w, PcOf(w, c));
    assert IdLogged(w.log, next) || IsTaken(w, next);
    var c' :| Taken(PcOf(w, c')) == Some(next);
  }

  lemma AppendedId(w: World, a: Action)
    requires Enabled(w, a)
    ensures Appends(a) ==>
              && Taken(PcOf(w, a.c)).Some? && |Take(w, a).log| == |w.log| + 1
              && Take(w, a).log[..|w.log|] == w.log && Take(w, a).log[|w.log|].id == Taken(PcOf(w, a.c)).value
    ensures !Appends(a) ==> Take(w, a).log == w.log
  {
  }

  lemma ConsecutiveSnoc(log: seq<LogEntry>, log': seq<LogEntry>)
    requires |log'| == |log| + 1 && log'[..|log|] == log
    ensures Consecutive(log') <==> Consecutive(log) && log'[|log|].id == |log| + 1
  {
    if !Consecutive(log) {
      var i :| 0 <= i < |log| && log[i].id != i + 1;
      assert log'[i] == log[i];
    }
  }

  lemma AppendStep(w: World, a: Action)
    requires Ids(w) && Enabled(w, a)
    ensures Consecutive(Take(w, a).log) <==> Consecutive(w.log) && (Appends(a) ==> Oldest(w, a.c))
  {
    AppendedId(w, a);
    if Appends(a) {
      ConsecutiveSnoc(w.log, Take(w, a).log);
      if Consecutive(w.log) {
        OldestIsNext(w, a.c);
      }
    }
  }

  /** Every append was made by the client that held the oldest version. */
  ghost predicate OldestFirst(actions: seq<Action>) {
    forall n :: 0 <= n < |actions| && Appends(actions[n]) ==> Oldest(After(actions[..n]), actions[n].c)
  }

  /** Main theorem: the ids in the log are consecutive if and only if the clients appended in
      the order in which they took their versions. */
  lemma {:induction false} IdsInOrder(actions: seq<Action>)
    requires Interleaving(actions)
    ensures Consecutive(After(actions).log) <==> OldestFirst(actions)
  {
    if actions != [] {
      var last := |actions| - 1;
      var before := actions[..last];
      IdsInOrder(before);
      IdsHold(before);
      AppendStep(After(before), actions[last]);
      OldestFirstSnoc(actions);
    }
  }

  lemma OldestFirstSnoc(actions: seq<Action>)
    requires actions != []
    ensures var last := |actions| - 1;
            OldestFirst(actions) <==>
            OldestFirst(actions[..last]) && (Appends(actions[last]) ==> Oldest(After(actions[..last]), actions[last].c))
  {
    var before := actions[..|actions| - 1];
    assert forall n :: 0 <= n < |before| ==> before[..n] == actions[..n] && before[n] == actions[n];
  }
}
