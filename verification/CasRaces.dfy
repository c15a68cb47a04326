/**
 CAS and commit among puts, deletes and evictions, which change the tree without the mutex:
 exactly when what a request checked still holds when it inserts.
 */
module CasRaces {
  import opened Prelude
  import opened Store
  import opened Server
  import opened Concurrency

  // --- The mutex, and what its holder inserts --------------------------------------------------------

  /** Inserting clients insert what their request says. */
  ghost predicate Honest(w: World) {
    forall c: Client :: PcOf(w, c).Inserting? ==> Writes(PcOf(w, c).req, PcOf(w, c).cmds)
  }

  lemma TakeMutex(w: World, a: Action)
    requires Mutex(w) && Enabled(w, a)
    ensures Mutex(Take(w, a))
  {
    assert Holds(PcOf(w, a.c)) <==> w.owner == Some(a.c);
    forall c: Client ensures Holds(PcOf(Take(w, a), c)) <==> Take(w, a).owner == Some(c) {
      assert Holds(PcOf(w, c)) <==> w.owner == Some(c);
    }
  }

  lemma TakeHonest(w: World, a: Action)
    requires Honest(w) && Enabled(w, a)
    ensures Honest(Take(w, a))
  {
    forall c: Client | PcOf(Take(w, a), c).Inserting?
      ensures Writes(PcOf(Take(w, a), c).req, PcOf(Take(w, a), c).cmds) {
      assert PcOf(w, c).Inserting? ==> Writes(PcOf(w, c).req, PcOf(w, c).cmds);
    }
  }

  lemma {:induction false} Held(actions: seq<Action>)
    requires Interleaving(actions)
    ensures Mutex(After(actions)) && Honest(After(actions))
  {
    if actions != [] {
      var last := |actions| - 1;
      Held(actions[..last]);
      TakeMutex(After(actions[..last]), actions[last]);
      TakeHonest(After(actions[..last]), actions[last]);
    }
  }

  lemma {:induction false} InterleavingAt(actions: seq<Action>, n: nat)
    requires Interleaving(actions) && n <= |actions|
    ensures Interleaving(actions[..n])
    ensures n < |actions| ==> Enabled(After(actions[..n]), actions[n])
  {
    if n == |actions| {
      assert actions[..n] == actions;
    } else if n < |actions| - 1 {
      var last := |actions| - 1;
      InterleavingAt(actions[..last], n);
      assert actions[..last][..n] == actions[..n];
    }
  }

  // --- Changes without the mutex -------------------------------------------------------------------------

  /** What an action changes in the tree without holding the mutex. */
  function PlainChange(w: World, a: Action): seq<LogEntry> {
    var pc := PcOf(w, a.c);
    if a.Place? && pc.Recorded? && pc.req.PlainPut? then
      [LogEntry(pc.version, Put(pc.req.key, pc.req.value, pc.req.expiresAt))]
    else if a.Erase? && pc.Found? && pc.req.PlainDelete? then [LogEntry(0, Delete(pc.req.key))]
    else if a.Evict? && pc.Doomed? && pc.req.PlainGet? then [LogEntry(0, Delete(pc.req.key))]
    else []
  }

  /** The changes without the mutex from the `m`-th action on, up to the `n`-th. */
  function PlainChanges(actions: seq<Action>, m: nat, n: nat): seq<LogEntry>
    requires n <= |actions|
  {
    if n <= m then []
    else PlainChanges(actions, m, n - 1) + PlainChange(After(actions[..n - 1]), actions[n - 1])
  }

  /** A record after such changes. */
  function Overlaid(r: Option<DbRecord>, changes: seq<LogEntry>, k: string): Option<DbRecord> {
    match LastWrite(changes, k)
    case None => r
    case Some((id, w)) => Written(w, id)
  }

  lemma {:induction false} LastWriteConcat(a: seq<LogEntry>, b: seq<LogEntry>, k: string)
    ensures LastWrite(a + b, k) == if LastWrite(b, k).Some? then LastWrite(b, k) else LastWrite(a, k)
  {
    if b == [] {
      assert a + b == a;
    } else {
      LastWriteConcat(a, b[..|b| - 1], k);
      assert (a + b)[..|a + b| - 1] == a + b[..|b| - 1];
    }
  }

  lemma ChangeAt(t: Tree, e: LogEntry, k: string)
    requires !e.cmd.TxCommit?
    ensures Find(ApplyOne(t, e.id, e.cmd), k) == Overlaid(Find(t, k), [e], k)
  {
    LastOfOne(e, k);
  }

  lemma LastOfOne(e: LogEntry, k: string)
    requires !e.cmd.TxCommit?
    ensures LastWrite([e], k) == if WriteOne(e.cmd, k).Some? then Some((e.id, WriteOne(e.cmd, k).value)) else None
  {
    assert [e][..0] == [];
  }

  // --- From the check of a key to its insertion -----------------------------------------------------------

  predicate Concerns(req: Request, k: string) {
    match req
    case Cas(k', _, _, _) => k == k'
    case Commit(ws, _) => k in ws
    case _ => false
  }

  /** The client has checked `k` and not yet inserted it. */
  ghost predicate Pledged(pc: Pc, k: string) {
    match pc
    case Checking(req, left) => req.Commit? && k in req.ws && k !in left
    case Cleared(req, _) => Concerns(req, k)
    case Versioned(req, _, _) => Concerns(req, k)
    case Inserting(req, _, cmds, next) =>
      Concerns(req, k) && forall i :: 0 <= i < next && i < |cmds| ==> WriteOne(cmds[i], k).None?
    case _ => false
  }

  /** The action is the client's check of `k`. */
  predicate Checks(w: World, a: Action, c: Client, k: string) {
    var pc := PcOf(w, c);
    a.c == c && pc.Checking? &&
    ((a.CheckKey? && a.key == k && pc.req.Commit?) || (a.CheckCas? && pc.req.Cas? && pc.req.key == k))
  }

  /** What the check found. */
  predicate Passes(r: Option<DbRecord>, req: Request, a: Action) {
    match req
    case Cas(_, expected, _, _) => a.CheckCas? && Meets(r, expected, a.now)
    case Commit(_, snap) => r.None? || r.value.version <= snap
    case _ => false
  }

  /** Until it inserts the key, the only changes to it are made without the mutex. */
  lemma PledgedStep(w: World, a: Action, c: Client, k: string)
    requires Mutex(w) && Enabled(w, a) && Pledged(PcOf(Take(w, a), c), k)
    ensures var w' := Take(w, a);
            if Checks(w, a, c, k) then
              && PcOf(w, c).req == PcOf(w', c).req && PlainChange(w, a) == []
              && Find(w'.tree, k) == Find(w.tree, k) && Passes(Find(w.tree, k), PcOf(w, c).req, a)
            else
              && Pledged(PcOf(w, c), k) && PcOf(w, c).req == PcOf(w', c).req
              && Find(w'.tree, k) == Overlaid(Find(w.tree, k), PlainChange(w, a), k)
  {
    if a.c == c {
      OwnStep(w, a, k);
    } else {
      OtherStep(w, a, c, k);
    }
  }

  lemma OwnStep(w: World, a: Action, k: string)
    requires Enabled(w, a) && Pledged(PcOf(Take(w, a), a.c), k)
    ensures var w' := Take(w, a);
            && PlainChange(w, a) == [] && Find(w'.tree, k) == Find(w.tree, k)
            && PcOf(w, a.c) != Idle && PcOf(w, a.c).req == PcOf(w', a.c).req
            && (Checks(w, a, a.c, k) ==> Passes(Find(w.tree, k), PcOf(w, a.c).req, a))
            && (!Checks(w, a, a.c, k) ==> Pledged(PcOf(w, a.c), k))
  {
    var pc := PcOf(w, a.c);
    match a
    case Insert(_) => assert WriteOne(pc.cmds[pc.next], k).None?;
    case _ =>
  }

  lemma OtherStep(w: World, a: Action, c: Client, k: string)
    requires Mutex(w) && Enabled(w, a) && a.c != c && Pledged(PcOf(w, c), k)
    ensures Find(Take(w, a).tree, k) == Overlaid(Find(w.tree, k), PlainChange(w, a), k)
  {
    assert Holds(PcOf(w, c)) <==> w.owner == Some(c);
    assert Holds(PcOf(w, a.c)) <==> w.owner == Some(a.c);
    if PlainChange(w, a) != [] {
      ChangeAt(w.tree, PlainChange(w, a)[0], k);
    }
  }

  /** The client's last check of `k` before the `n`-th action. */
  function LastCheck(actions: seq<Action>, n: nat, c: Client, k: string): (m: Option<nat>)
    requires n <= |actions|
    ensures m.Some? ==> m.value < n
  {
    if n == 0 then None
    else if Checks(After(actions[..n - 1]), actions[n - 1], c, k) then Some(n - 1)
    else LastCheck(actions, n - 1, c, k)
  }

  /** The check was passed for the request in hand, and since then the record of the key was
      changed without the mutex only. */
  ghost predicate SinceCheck(actions: seq<Action>, n: nat, c: Client, k: string, req: Request)
    requires n <= |actions|
  {
    LastCheck(actions, n, c, k).Some? &&
    var m := LastCheck(actions, n, c, k).value;
    && PcOf(After(actions[..m]), c).Checking? && PcOf(After(actions[..m]), c).req == req
    && Passes(Find(After(actions[..m]).tree, k), req, actions[m])
    && Find(After(actions[..n]).tree, k) == Overlaid(Find(After(actions[..m]).tree, k), PlainChanges(actions, m, n), k)
  }

  lemma {:induction false} Since(actions: seq<Action>, n: nat, c: Client, k: string)
    requires Interleaving(actions) && n <= |actions| && Pledged(PcOf(After(actions[..n]), c), k)
    ensures SinceCheck(actions, n, c, k, PcOf(After(actions[..n]), c).req)
  {
    if n > 0 {
      var w, a := After(actions[..n - 1]), actions[n - 1];
      assert actions[..n][..n - 1] == actions[..n - 1];
      InterleavingAt(actions, n - 1);
      Held(actions[..n - 1]);
      PledgedStep(w, a, c, k);
      if Checks(w, a, c, k) {
        FirstChange(actions, n);
      } else {
        Since(actions, n - 1, c, k);
        var m := LastCheck(actions, n - 1, c, k).value;
        LastWriteConcat(PlainChanges(actions, m, n - 1), PlainChange(w, a), k);
      }
    }
  }

  lemma FirstChange(actions: seq<Action>, n: nat)
    requires 0 < n <= |actions| && PlainChange(After(actions[..n - 1]), actions[n - 1]) == []
    ensures PlainChanges(actions, n - 1, n) == []
  {
  }

  // --- Main theorems -------------------------------------------------------------------------------------------

  /** The client that takes the `n`-th action is about to insert a value for `k`, or to remove it. */
  ghost predicate Inserts(actions: seq<Action>, n: nat, k: string)
    requires n < |actions|
  {
    var pc := PcOf(After(actions[..n]), actions[n].c);
    actions[n].Insert? && pc.Inserting? && pc.next < |pc.cmds| && WriteOne(pc.cmds[pc.next], k).Some?
  }

  lemma InsertsPledged(actions: seq<Action>, n: nat, k: string)
    requires Interleaving(actions) && n < |actions| && Inserts(actions, n, k)
    ensures Pledged(PcOf(After(actions[..n]), actions[n].c), k)
  {
    InterleavingAt(actions, n);
    Held(actions[..n]);
    var pc := PcOf(After(actions[..n]), actions[n].c);
    assert Writes(pc.req, pc.cmds);
    assert pc.cmds[pc.next].key == k;
  }

  /** Main theorem on CAS: in every interleaving of all kinds of clients, right before a CAS
      inserts, the tree shows what it expected at the time of its check, if and only if the
      last change made to the key without the mutex since that check, if any, left that. */
  lemma CasAmongOthers(actions: seq<Action>, n: nat, k: string)
    requires Interleaving(actions) && n < |actions| && Inserts(actions, n, k)
    requires PcOf(After(actions[..n]), actions[n].c).req.Cas?
    ensures var c, w := actions[n].c, After(actions[..n]);
            var expected := PcOf(w, c).req.expected;
            && LastCheck(actions, n, c, k).Some?
            && var m := LastCheck(actions, n, c, k).value;
               && actions[m].CheckCas?
               && var last := LastWrite(PlainChanges(actions, m, n), k);
                  Meets(Find(w.tree, k), expected, actions[m].now) <==>
                  (last.None? || Meets(Written(last.value.1, last.value.0), expected, actions[m].now))
  {
    InsertsPledged(actions, n, k);
    Since(actions, n, actions[n].c, k);
  }

  /** Main theorem on commit: right before a transaction writes a key, the tree holds a record
      of it newer than the transaction's snapshot, if and only if the last change made to the
      key without the mutex since the check stored one. */
  lemma CommitAmongOthers(actions: seq<Action>, n: nat, k: string)
    requires Interleaving(actions) && n < |actions| && Inserts(actions, n, k)
    requires PcOf(After(actions[..n]), actions[n].c).req.Commit?
    ensures var c, w := actions[n].c, After(actions[..n]);
            var snap := PcOf(w, c).req.snapshotVersion;
            && LastCheck(actions, n, c, k).Some?
            && var m := LastCheck(actions, n, c, k).value;
               var last := LastWrite(PlainChanges(actions, m, n), k);
               (k in w.tree && w.tree[k].version > snap) <==>
               (last.Some? && last.value.1.Stored? && last.value.0 > snap)
  {
    InsertsPledged(actions, n, k);
    Since(actions, n, actions[n].c, k);
  }
}
