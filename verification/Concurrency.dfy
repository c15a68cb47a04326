/**
 Any number of clients, interleaved at every access to shared state.  CAS and commit take the
 log mutex, check, count, append, insert and release it; put and delete take it only for their
 append, and the removal of an expired record by a get or a sweep takes it not at all.  A
 snapshot is taken under the mutex.  The theorems here are about CAS and commit clients;
 `PlainWrites`, `CasRaces`, `KeyGuard` and `Races` let all of them in.
 */
module Concurrency {
  import opened Prelude
  import opened Store
  import opened Server

  type Client = nat

  datatype Request =
    | Cas(key: string, expected: Bytes, value: Bytes, expiresAt: Option<nat>)
    | Commit(ws: WriteSet, snapshotVersion: nat)
    | PlainPut(key: string, value: Bytes, expiresAt: Option<nat>)
    | PlainDelete(key: string)
    | PlainGet(key: string)

  /** The request holds the mutex from its first check to its last insertion. */
  predicate Locks(req: Request) {
    req.Cas? || req.Commit?
  }

  /** Where a client is in its request. */
  datatype Pc =
    | Idle
    | Waiting(req: Request)
    | Checking(req: Request, left: set<string>)
    | Cleared(req: Request, now: nat)
    | Versioned(req: Request, now: nat, version: nat)
    | Inserting(req: Request, version: nat, cmds: seq<WalCommand>, next: nat)
    | Refused(req: Request)
    | Found(req: Request)
    | Erased(req: Request)
    | Stamped(req: Request, version: nat)
    | Recorded(req: Request, version: nat)
    | Doomed(req: Request)
    | Finished(req: Request, ok: bool)

  /** What can be observed, and where each request takes effect. */
  datatype Mark =
    | Called(client: Client, req: Request)
    | Effect(client: Client, req: Request, now: nat, cmds: seq<WalCommand>, ok: bool)
    | Returned(client: Client, ok: bool)

  /** `trace` lists all changes to the tree, in the order in which they were made; a plain
      delete has no id yet when it makes its own, and an eviction never has one.  `base` is the
      tree that the last snapshot wrote, and `cut` the number of entries it took off the log
      file; `log` keeps them all. */
  datatype World = World(
    tree: Tree,
    version: nat,
    log: seq<LogEntry>,
    owner: Option<Client>,
    pcs: map<Client, Pc>,
    history: seq<Mark>,
    trace: seq<LogEntry>,
    base: Tree,
    cut: nat)

  const START := World(map[], 0, [], None, map[], [], [], map[], 0)

  function PcOf(w: World, c: Client): Pc {
    if c in w.pcs then w.pcs[c] else Idle
  }

  datatype Action =
    | Call(c: Client, req: Request)
    | Lock(c: Client)
    | CheckCas(c: Client, now: nat)
    | CheckKey(c: Client, key: string)
    | CheckDone(c: Client)
    | FetchAdd(c: Client)
    | Append(c: Client, cmds: seq<WalCommand>)
    | Insert(c: Client)
    | Unlock(c: Client)
    | Look(c: Client)
    | Erase(c: Client)
    | Stamp(c: Client)
    | Log(c: Client)
    | Place(c: Client)
    | Peek(c: Client, now: nat)
    | Evict(c: Client)
    | Snapshot(c: Client)
    | Return(c: Client)

  /** The commands that carry out a CAS or a commit. */
  ghost predicate Writes(req: Request, cmds: seq<WalCommand>) {
    match req
    case Cas(k, _, v, e) => cmds == [Put(k, v, e)]
    case Commit(ws, _) => Lists(cmds, ws)
    case _ => false
  }

  ghost predicate Enabled(w: World, a: Action) {
    var pc := PcOf(w, a.c);
    match a
    case Call(_, _) => pc.Idle?
    case Lock(_) => pc.Waiting? && Locks(pc.req) && w.owner == None
    case CheckCas(_, _) => pc.Checking? && pc.req.Cas?
    case CheckKey(_, k) => pc.Checking? && pc.req.Commit? && k in pc.left
    case CheckDone(_) => pc.Checking? && pc.req.Commit? && pc.left == {}
    case FetchAdd(_) => pc.Cleared?
    case Append(_, cmds) => pc.Versioned? && Writes(pc.req, cmds)
    case Insert(_) => pc.Inserting? && pc.next < |pc.cmds|
    case Unlock(_) => pc.Refused? || (pc.Inserting? && pc.next == |pc.cmds|)
    case Look(_) => pc.Waiting? && pc.req.PlainDelete?
    case Erase(_) => pc.Found? && pc.req.PlainDelete?
    case Stamp(_) => (pc.Waiting? && pc.req.PlainPut?) || pc.Erased?
    case Log(_) => pc.Stamped? && !Locks(pc.req) && w.owner == None
    case Place(_) => pc.Recorded? && pc.req.PlainPut?
    case Peek(_, _) => pc.Waiting? && pc.req.PlainGet?
    case Evict(_) => pc.Doomed? && pc.req.PlainGet?
    case Snapshot(_) => pc.Idle? && w.owner == None
    case Return(_) => pc.Finished?
  }

  function Logs(req: Request, cmds: seq<WalCommand>): WalCommand {
    match req
    case Cas(k, _, v, e) => Put(k, v, e)
    case Commit(_, _) => TxCommit(cmds)
    case PlainPut(k, v, e) => Put(k, v, e)
    case PlainDelete(k) => Delete(k)
    case PlainGet(_) => TxCommit([])
  }

  /** Makes one change to the tree. */
  function Change(w: World, id: nat, cmd: WalCommand): World {
    w.(tree := ApplyOne(w.tree, id, cmd), trace := if cmd.TxCommit? then w.trace else w.trace + [LogEntry(id, cmd)])
  }

  function Go(w: World, c: Client, pc: Pc): World {
    w.(pcs := w.pcs[c := pc])
  }

  function Refuse(w: World, c: Client, req: Request, now: nat): World {
    Go(w, c, Refused(req)).(history := w.history + [Effect(c, req, now, [], false)])
  }

  function Take(w: World, a: Action): World {
    var c, pc := a.c, PcOf(w, a.c);
    match a
    case Call(_, req) => Go(w, c, Waiting(req)).(history := w.history + [Called(c, req)])
    case Lock(_) =>
      if pc.Waiting? then
        Go(w, c, Checking(pc.req, if pc.req.Commit? then pc.req.ws.Keys else {})).(owner := Some(c))
      else w
    case CheckCas(_, now) =>
      if pc.Checking? && pc.req.Cas? then
        if CasSucceeds(w.tree, now, pc.req.key, pc.req.expected) then Go(w, c, Cleared(pc.req, now))
        else Refuse(w, c, pc.req, now)
      else w
    case CheckKey(_, k) =>
      if pc.Checking? && pc.req.Commit? then
        if k in w.tree && w.tree[k].version > pc.req.snapshotVersion then Refuse(w, c, pc.req, 0)
        else Go(w, c, Checking(pc.req, pc.left - {k}))
      else w
    case CheckDone(_) => if pc.Checking? then Go(w, c, Cleared(pc.req, 0)) else w
    case FetchAdd(_) =>
      if pc.Cleared? then Go(w, c, Versioned(pc.req, pc.now, w.version + 1)).(version := w.version + 1) else w
    case Append(_, cmds) =>
      if pc.Versioned? then
        Go(w, c, Inserting(pc.req, pc.version, cmds, 0)).(
          log := w.log + [LogEntry(pc.version, Logs(pc.req, cmds))],
          history := w.history + [Effect(c, pc.req, pc.now, cmds, true)])
      else w
    case Insert(_) =>
      if pc.Inserting? && pc.next < |pc.cmds| then
        Change(Go(w, c, pc.(next := pc.next + 1)), pc.version, pc.cmds[pc.next])
      else w
    case Unlock(_) =>
      if pc.Refused? || pc.Inserting? then Go(w, c, Finished(pc.req, pc.Inserting?)).(owner := None) else w
    case Look(_) =>
      if pc.Waiting? && pc.req.PlainDelete? then
        Go(w, c, if pc.req.key in w.tree then Found(pc.req) else Finished(pc.req, false))
      else w
    case Erase(_) =>
      if pc.Found? && pc.req.PlainDelete? then Change(Go(w, c, Erased(pc.req)), 0, Delete(pc.req.key)) else w
    case Stamp(_) =>
      if pc.Waiting? || pc.Erased? then Go(w, c, Stamped(pc.req, w.version + 1)).(version := w.version + 1) else w
    case Log(_) =>
      if pc.Stamped? then
        Go(w, c, if pc.req.PlainPut? then Recorded(pc.req, pc.version) else Finished(pc.req, true)).(
          log := w.log + [LogEntry(pc.version, Logs(pc.req, []))])
      else w
    case Place(_) =>
      if pc.Recorded? && pc.req.PlainPut? then
        Change(Go(w, c, Finished(pc.req, true)), pc.version, Put(pc.req.key, pc.req.value, pc.req.expiresAt))
      else w
    case Peek(_, now) =>
      if pc.Waiting? && pc.req.PlainGet? then
        var k := pc.req.key;
        var doomed := k in w.tree && IsExpired(w.tree[k].expiresAt, now);
        Go(w, c, if doomed then Doomed(pc.req) else Finished(pc.req, k in w.tree))
      else w
    case Evict(_) =>
      if pc.Doomed? && pc.req.PlainGet? then Change(Go(w, c, Finished(pc.req, false)), 0, Delete(pc.req.key)) else w
    case Snapshot(_) => w.(base := w.tree, cut := |w.log|)
    case Return(_) =>
      if pc.Finished? then Go(w, c, Idle).(history := w.history + [Returned(c, pc.ok)]) else w
  }

  /** Each action can be taken after the ones before it. */
  ghost predicate Interleaving(actions: seq<Action>) {
    actions == [] ||
    (var last := |actions| - 1;
     Interleaving(actions[..last]) && Enabled(After(actions[..last]), actions[last]))
  }

  function After(actions: seq<Action>): World {
    if actions == [] then START else Take(After(actions[..|actions| - 1]), actions[|actions| - 1])
  }

  // --- The sequential specification ----------------------------------------------------------------

  /** Whether a request succeeds when executed alone on a tree. */
  predicate Succeeds(req: Request, t: Tree, now: nat) {
    match req
    case Cas(k, expected, _, _) => CasSucceeds(t, now, k, expected)
    case Commit(ws, snap) => !Conflicts(t, ws, snap)
    case PlainPut(_, _, _) => true
    case PlainDelete(k) => k in t
    case PlainGet(_) => true
  }

  /** Executes the requests of a history one after the other, at their points of effect, on
      the tree of the log they build.  None if some recorded outcome is not the sequential one. */
  function Sequential(h: seq<Mark>): Option<seq<LogEntry>> {
    if h == [] then Some([])
    else
      var before := Sequential(h[..|h| - 1]);
      match h[|h| - 1]
      case Called(_, _) => before
      case Returned(_, _) => before
      case Effect(_, req, now, cmds, ok) =>
        if before.None? || ok != Succeeds(req, Fold(before.value), now) then None
        else if ok then Some(before.value + [LogEntry(|before.value| + 1, Logs(req, cmds))])
        else before
  }

  datatype Status = Out | Pending(req: Request) | Effected(req: Request, ok: bool)

  /** How far a client's latest request has come. */
  function StatusOf(h: seq<Mark>, c: Client): Status {
    if h == [] then Out
    else
      var m := h[|h| - 1];
      if m.client != c then StatusOf(h[..|h| - 1], c)
      else match m
        case Called(_, req) => Pending(req)
        case Effect(_, req, _, _, ok) => Effected(req, ok)
        case Returned(_, _) => Out
  }

  predicate Fits(before: Status, m: Mark) {
    match m
    case Called(_, _) => before.Out?
    case Effect(_, req, _, _, _) => before == Pending(req)
    case Returned(_, ok) => before.Effected? && before.ok == ok
  }

  /** Every request takes effect exactly once, between its call and its return, and returns
      the outcome it had then. */
  ghost predicate Punctual(h: seq<Mark>) {
    forall n :: 0 <= n < |h| ==> Fits(StatusOf(h[..n], h[n].client), h[n])
  }

  // --- The invariant ---------------------------------------------------------------------------------

  predicate Holds(pc: Pc) {
    pc.Checking? || pc.Cleared? || pc.Versioned? || pc.Inserting? || pc.Refused?
  }

  /** Nothing is half done: the tree is the log's tree and the counter its length. */
  ghost predicate Quiet(w: World) {
    w.tree == Fold(w.log) && w.version == |w.log|
  }

  /** What the mutex protects, by the phase of its holder. */
  ghost predicate Phase(w: World, pc: Pc) {
    match pc
    case Checking(req, left) =>
      Quiet(w) && (req.Commit? ==>
        left <= req.ws.Keys &&
        forall k <- req.ws :: k !in left ==> !(k in w.tree && w.tree[k].version > req.snapshotVersion))
    case Cleared(req, now) => Quiet(w) && Succeeds(req, w.tree, now)
    case Versioned(req, now, v) =>
      w.tree == Fold(w.log) && w.version == v == |w.log| + 1 && Succeeds(req, w.tree, now)
    case Inserting(req, v, cmds, next) =>
      && w.version == v == |w.log| && w.log != [] && next <= |cmds|
      && w.tree == ApplyAll(Fold(w.log[..|w.log| - 1]), v, cmds[..next])
      && Fold(w.log) == ApplyAll(Fold(w.log[..|w.log| - 1]), v, cmds)
    case Refused(_) => Quiet(w)
    case _ => true
  }

  ghost predicate Agrees(pc: Pc, s: Status) {
    match pc
    case Idle => s == Out
    case Waiting(req) => s == Pending(req) && Locks(req)
    case Checking(req, _) => s == Pending(req)
    case Cleared(req, _) => s == Pending(req)
    case Versioned(req, _, _) => s == Pending(req)
    case Inserting(req, _, _, _) => s == Effected(req, true)
    case Refused(req) => s == Effected(req, false)
    case Finished(req, ok) => s == Effected(req, ok)
    case _ => false
  }

  ghost predicate Mutex(w: World) {
    forall c: Client :: Holds(PcOf(w, c)) <==> w.owner == Some(c)
  }

  ghost predicate Inv(w: World) {
    && Mutex(w)
    && Consecutive(w.log)
    && (w.owner.None? ==> Quiet(w))
    && (w.owner.Some? ==> Phase(w, PcOf(w, w.owner.value)))
    && Sequential(w.history) == Some(w.log)
    && Punctual(w.history)
    && (forall c: Client :: Agrees(PcOf(w, c), StatusOf(w.history, c)))
  }

  lemma StatusSnoc(h: seq<Mark>, m: Mark, c: Client)
    ensures StatusOf(h + [m], c) ==
            if m.client != c then StatusOf(h, c)
            else match m
              case Called(_, req) => Pending(req)
              case Effect(_, req, _, _, ok) => Effected(req, ok)
              case Returned(_, _) => Out
  {
    assert (h + [m])[..|h|] == h;
  }

  lemma PunctualSnoc(h: seq<Mark>, m: Mark)
    requires Punctual(h) && Fits(StatusOf(h, m.client), m)
    ensures Punctual(h + [m])
  {
    forall n | 0 <= n < |h + [m]| ensures Fits(StatusOf((h + [m])[..n], (h + [m])[n].client), (h + [m])[n]) {
      if n < |h| {
        assert (h + [m])[..n] == h[..n];
      } else {
        assert (h + [m])[..n] == h;
      }
    }
  }

  /** Recording a mark that fits, with the client moving on accordingly, keeps the history in
      step with everybody's whereabouts. */
  lemma MarkKeeps(w: World, c: Client, pc: Pc, m: Mark)
    requires m.client == c && Punctual(w.history) && Fits(StatusOf(w.history, c), m)
    requires forall c': Client :: Agrees(PcOf(w, c'), StatusOf(w.history, c'))
    requires Agrees(pc, StatusOf(w.history + [m], c))
    ensures var w' := Go(w, c, pc).(history := w.history + [m]);
            Punctual(w'.history) && forall c': Client :: Agrees(PcOf(w', c'), StatusOf(w'.history, c'))
  {
    PunctualSnoc(w.history, m);
    var w' := Go(w, c, pc).(history := w.history + [m]);
    forall c': Client ensures Agrees(PcOf(w', c'), StatusOf(w'.history, c')) {
      StatusSnoc(w.history, m, c');
      assert Agrees(PcOf(w, c'), StatusOf(w.history, c'));
    }
  }

  lemma SequentialSnoc(h: seq<Mark>, m: Mark, log: seq<LogEntry>)
    requires Sequential(h) == Some(log)
    ensures !m.Effect? ==> Sequential(h + [m]) == Some(log)
    ensures m.Effect? && m.ok == Succeeds(m.req, Fold(log), m.now) ==>
              Sequential(h + [m]) == Some(if m.ok then log + [LogEntry(|log| + 1, Logs(m.req, m.cmds))] else log)
  {
    assert (h + [m])[..|h|] == h;
  }

  // --- Each step keeps the invariant ------------------------------------------------------------------------

  lemma CallKeeps(w: World, c: Client, req: Request)
    requires Inv(w) && Enabled(w, Call(c, req)) && Locks(req)
    ensures Inv(Take(w, Call(c, req)))
  {
    assert Agrees(PcOf(w, c), StatusOf(w.history, c));
    StatusSnoc(w.history, Called(c, req), c);
    MarkKeeps(w, c, Waiting(req), Called(c, req));
    SequentialSnoc(w.history, Called(c, req), w.log);
  }

  lemma ReturnKeeps(w: World, c: Client)
    requires Inv(w) && Enabled(w, Return(c))
    ensures Inv(Take(w, Return(c)))
  {
    var pc := PcOf(w, c);
    assert Agrees(pc, StatusOf(w.history, c));
    StatusSnoc(w.history, Returned(c, pc.ok), c);
    MarkKeeps(w, c, Idle, Returned(c, pc.ok));
    SequentialSnoc(w.history, Returned(c, pc.ok), w.log);
  }

  lemma LockKeeps(w: World, c: Client)
    requires Inv(w) && Enabled(w, Lock(c))
    ensures Inv(Take(w, Lock(c)))
  {
    assert Agrees(PcOf(w, c), StatusOf(w.history, c));
  }

  lemma RefuseKeeps(w: World, c: Client, now: nat)
    requires Inv(w) && PcOf(w, c).Checking? && !Succeeds(PcOf(w, c).req, w.tree, now)
    ensures Inv(Refuse(w, c, PcOf(w, c).req, now))
  {
    var req := PcOf(w, c).req;
    var m := Effect(c, req, now, [], false);
    assert Agrees(PcOf(w, c), StatusOf(w.history, c));
    assert w.owner == Some(c);
    StatusSnoc(w.history, m, c);
    MarkKeeps(w, c, Refused(req), m);
    SequentialSnoc(w.history, m, w.log);
  }

  lemma CheckSteps(w: World, a: Action)
    requires Inv(w) && Enabled(w, a) && (a.CheckCas? || a.CheckKey? || a.CheckDone?)
    ensures Inv(Take(w, a))
  {
    var pc := PcOf(w, a.c);
    assert Holds(pc) && w.owner == Some(a.c);
    match a
    case CheckCas(c, now) =>
      if !CasSucceeds(w.tree, now, pc.req.key, pc.req.expected) {
        RefuseKeeps(w, c, now);
      }
    case CheckKey(c, k) =>
      if k in w.tree && w.tree[k].version > pc.req.snapshotVersion {
        RefuseKeeps(w, c, 0);
      }
    case CheckDone(c) =>
  }

  lemma FetchAddKeeps(w: World, a: Action)
    requires Inv(w) && Enabled(w, a) && a.FetchAdd?
    ensures Inv(Take(w, a))
  {
    assert Holds(PcOf(w, a.c)) && w.owner == Some(a.c);
  }

  lemma AppendKeeps(w: World, a: Action)
    requires Inv(w) && Enabled(w, a) && a.Append?
    ensures Inv(Take(w, a))
  {
    var c, pc := a.c, PcOf(w, a.c);
    assert Holds(pc) && w.owner == Some(c);
    var m := Effect(c, pc.req, pc.now, a.cmds, true);
    var e := LogEntry(pc.version, Logs(pc.req, a.cmds));
    StatusSnoc(w.history, m, c);
    MarkKeeps(w, c, Inserting(pc.req, pc.version, a.cmds, 0), m);
    SequentialSnoc(w.history, m, w.log);
    AppendedFold(w.log, pc.version, pc.req, a.cmds);
    assert (w.log + [e])[..|w.log|] == w.log && a.cmds[..0] == [];
  }

  lemma AppendedFold(log: seq<LogEntry>, version: nat, req: Request, cmds: seq<WalCommand>)
    requires Locks(req) && (req.Cas? ==> cmds == [Put(req.key, req.value, req.expiresAt)])
    ensures Fold(log + [LogEntry(version, Logs(req, cmds))]) == ApplyAll(Fold(log), version, cmds)
  {
    FoldSnoc(log, LogEntry(version, Logs(req, cmds)));
    if req.Cas? {
      assert cmds[..0] == [];
    }
  }

  lemma InsertKeeps(w: World, a: Action)
    requires Inv(w) && Enabled(w, a) && a.Insert?
    ensures Inv(Take(w, a))
  {
    var pc := PcOf(w, a.c);
    assert Holds(pc) && w.owner == Some(a.c);
    assert pc.cmds[..pc.next + 1][..pc.next] == pc.cmds[..pc.next];
  }

  lemma UnlockKeeps(w: World, a: Action)
    requires Inv(w) && Enabled(w, a) && a.Unlock?
    ensures Inv(Take(w, a))
  {
    var pc := PcOf(w, a.c);
    assert Holds(pc) && w.owner == Some(a.c);
    if pc.Inserting? {
      assert pc.cmds[..pc.next] == pc.cmds;
    }
  }

  lemma TakeKeeps(w: World, a: Action)
    requires Inv(w) && Enabled(w, a) && (a.Call? ==> Locks(a.req))
    ensures Inv(Take(w, a))
  {
    assert Agrees(PcOf(w, a.c), StatusOf(w.history, a.c));
    match a
    case Call(c, req) => CallKeeps(w, c, req);
    case Lock(c) => LockKeeps(w, c);
    case Return(c) => ReturnKeeps(w, c);
    case CheckCas(_, _) => CheckSteps(w, a);
    case CheckKey(_, _) => CheckSteps(w, a);
    case CheckDone(_) => CheckSteps(w, a);
    case FetchAdd(_) => FetchAddKeeps(w, a);
    case Append(_, _) => AppendKeeps(w, a);
    case Insert(_) => InsertKeeps(w, a);
    case Unlock(_) => UnlockKeeps(w, a);
    case _ =>
  }

  /** Only CAS and commit requests are made. */
  ghost predicate AllLock(actions: seq<Action>) {
    forall n :: 0 <= n < |actions| && actions[n].Call? ==> Locks(actions[n].req)
  }

  lemma {:induction false} InvHolds(actions: seq<Action>)
    requires Interleaving(actions) && AllLock(actions)
    ensures Inv(After(actions))
  {
    if actions != [] {
      var last := |actions| - 1;
      InvHolds(actions[..last]);
      TakeKeeps(After(actions[..last]), actions[last]);
    }
  }

  // --- Main theorems -----------------------------------------------------------------------------------------

  /** In every interleaving of CAS and commit clients: log ids are consecutive; the tree is the fold of the log whenever
      the mutex is free; and the history is linearizable, each request taking effect once
      between call and return with the outcome of a sequential execution that builds this log. */
  lemma Linearizable(actions: seq<Action>)
    requires Interleaving(actions) && AllLock(actions)
    ensures var w := After(actions);
            && Consecutive(w.log)
            && (w.owner.None? ==> w.tree == Fold(w.log) && w.version == |w.log|)
            && Punctual(w.history)
            && Sequential(w.history) == Some(w.log)
  {
    InvHolds(actions);
  }

  lemma {:induction false} SequentialPrefix(h: seq<Mark>, n: nat)
    requires Sequential(h).Some? && n <= |h|
    ensures Sequential(h[..n]).Some? && Sequential(h[..n]).value <= Sequential(h).value
  {
    if n < |h| {
      SequentialPrefix(h[..|h| - 1], n);
      assert h[..|h| - 1][..n] == h[..n];
    } else {
      assert h[..n] == h;
    }
  }

  /** A record that shows, at the time of a CAS, what the CAS expects; an empty expectation is
      met by nothing, too. */
  predicate Meets(r: Option<DbRecord>, expected: Bytes, now: nat) {
    match Visible(r, now)
    case Some(seen) => seen.value == expected
    case None => expected == []
  }

  /** What the tree showed before a CAS with this mark took effect is what it expected. */
  ghost predicate MetExpectation(t: Tree, m: Mark)
    requires m.Effect? && m.req.Cas?
  {
    Meets(Find(t, m.req.key), m.req.expected, m.now)
  }

  lemma CasEffect(h: seq<Mark>, n: nat)
    requires Sequential(h).Some? && n < |h| && h[n].Effect? && h[n].req.Cas? && h[n].ok
    ensures Sequential(h[..n]).Some? && MetExpectation(Fold(Sequential(h[..n]).value), h[n])
    ensures var before, req := Sequential(h[..n]).value, h[n].req;
            before + [LogEntry(|before| + 1, Put(req.key, req.value, req.expiresAt))] <= Sequential(h).value
  {
    SequentialPrefix(h, n);
    SequentialPrefix(h, n + 1);
    assert h[..n + 1][..n] == h[..n];
  }

  /** The log has, right after a prefix whose tree meets its expectation, the Put of a CAS. */
  ghost predicate Replaced(log: seq<LogEntry>, m: Mark)
    requires m.Effect? && m.req.Cas?
  {
    exists i :: 0 <= i < |log| && log[i] == LogEntry(i + 1, Put(m.req.key, m.req.value, m.req.expiresAt)) &&
      MetExpectation(Fold(log[..i]), m)
  }

  lemma CasInLog(h: seq<Mark>, log: seq<LogEntry>, n: nat)
    requires Sequential(h) == Some(log) && n < |h| && h[n].Effect? && h[n].req.Cas? && h[n].ok
    ensures Replaced(log, h[n])
  {
    CasEffect(h, n);
    var before := Sequential(h[..n]).value;
    assert log[..|before|] == before;
    assert log[|before|].cmd.Put?;
  }

  /** So each successful CAS replaced exactly the value it expected: the log has, right after a
      prefix whose tree shows that value (or nothing, if it expected nothing), its Put. */
  lemma CasReplacedExpected(actions: seq<Action>, n: nat)
    requires Interleaving(actions) && AllLock(actions) && n < |After(actions).history|
    requires var m := After(actions).history[n]; m.Effect? && m.req.Cas? && m.ok
    ensures Replaced(After(actions).log, After(actions).history[n])
  {
    Linearizable(actions);
    CasInLog(After(actions).history, After(actions).log, n);
  }
}
