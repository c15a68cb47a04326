/**
 When the clients that write a key keep out of each other's way, the tree agrees with the log on
 that key; what a snapshot taken meanwhile loses.
 */
module KeyGuard {
  import opened Prelude
  import opened Store
  import opened Server
  import opened Concurrency
  import opened PlainWrites
  import opened CasRaces

  // --- Half-done writes ----------------------------------------------------------------------------------

  /** What a client still has to do about a key that it has logged or changed: put a record, or
      nothing, into the tree; or log a removal. */
  datatype Stake = NoStake | ToInsert(rec: Option<DbRecord>) | ToLog

  function StakeOf(pc: Pc, k: string): Stake {
    match pc
    case Recorded(req, v) =>
      if req.PlainPut? && req.key == k then ToInsert(Some(DbRecord(req.value, req.expiresAt, v))) else NoStake
    case Inserting(_, v, cmds, next) =>
      if next <= |cmds| && WriteAll(cmds[next..], k).Some? then ToInsert(Written(WriteAll(cmds[next..], k).value, v))
      else NoStake
    case Erased(req) => if req.PlainDelete? && req.key == k then ToLog else NoStake
    case Stamped(req, _) => if req.PlainDelete? && req.key == k then ToLog else NoStake
    case _ => NoStake
  }

  /** The command an action logs. */
  function LoggedBy(w: World, a: Action): Option<LogEntry> {
    var pc := PcOf(w, a.c);
    if a.Append? && pc.Versioned? then Some(LogEntry(pc.version, Logs(pc.req, a.cmds)))
    else if a.Log? && pc.Stamped? then Some(LogEntry(pc.version, Logs(pc.req, [])))
    else None
  }

  /** The change an action makes to the tree. */
  function ChangedBy(w: World, a: Action): Option<LogEntry> {
    var pc := PcOf(w, a.c);
    if a.Insert? && pc.Inserting? && pc.next < |pc.cmds| then Some(LogEntry(pc.version, pc.cmds[pc.next]))
    else if PlainChange(w, a) != [] then Some(PlainChange(w, a)[0])
    else None
  }

  predicate LogsKey(w: World, a: Action, k: string) {
    LoggedBy(w, a).Some? && WriteOf(LoggedBy(w, a).value.cmd, k).Some?
  }

  predicate ChangesKey(w: World, a: Action, k: string) {
    ChangedBy(w, a).Some? && WriteOne(ChangedBy(w, a).value.cmd, k).Some?
  }

  /** Whoever logs or changes the key finds no other client half done with it, and nobody
      evicts it. */
  ghost predicate Careful(w: World, a: Action, k: string) {
    LogsKey(w, a, k) || ChangesKey(w, a, k) ==>
      !a.Evict? && forall c: Client :: c != a.c ==> StakeOf(PcOf(w, c), k).NoStake?
  }

  ghost predicate Guarded(actions: seq<Action>, k: string) {
    actions == [] ||
    (var last := |actions| - 1;
     Guarded(actions[..last], k) && Careful(After(actions[..last]), actions[last], k))
  }

  // --- What one step does to a key ------------------------------------------------------------------------

  function LogSays(w: World, k: string): Option<DbRecord> {
    Find(Fold(w.log), k)
  }

  function TreeHas(w: World, k: string): Option<DbRecord> {
    Find(w.tree, k)
  }

  lemma {:induction false} WriteAllCons(x: WalCommand, rest: seq<WalCommand>, k: string)
    ensures WriteAll([x] + rest, k) == if WriteAll(rest, k).Some? then WriteAll(rest, k) else WriteOne(x, k)
  {
    if rest == [] {
      assert [x] + rest == [x] && [x][..0] == [];
    } else {
      WriteAllCons(x, rest[..|rest| - 1], k);
      assert ([x] + rest)[..|rest|] == [x] + rest[..|rest| - 1];
    }
  }

  lemma {:induction false} WriteAllTail(req: Request, cmds: seq<WalCommand>, next: nat, k: string)
    requires Writes(req, cmds) && next < |cmds|
    ensures WriteAll(cmds[next..], k) ==
            if WriteOne(cmds[next], k).Some? then WriteOne(cmds[next], k) else WriteAll(cmds[next + 1..], k)
    ensures WriteOne(cmds[next], k).Some? ==> WriteAll(cmds[next + 1..], k).None?
  {
    assert cmds[next..] == [cmds[next]] + cmds[next + 1..];
    WriteAllCons(cmds[next], cmds[next + 1..], k);
    if WriteOne(cmds[next], k).Some? {
      WriteAllAbsent(cmds[next + 1..], k);
    }
  }

  lemma LogAt(w: World, a: Action, k: string)
    requires Enabled(w, a)
    ensures Take(w, a).log == w.log + if LoggedBy(w, a).Some? then [LoggedBy(w, a).value] else []
    ensures LogSays(Take(w, a), k) ==
            if LogsKey(w, a, k) then Written(WriteOf(LoggedBy(w, a).value.cmd, k).value, LoggedBy(w, a).value.id)
            else LogSays(w, k)
  {
    if LoggedBy(w, a).Some? {
      var e := LoggedBy(w, a).value;
      FoldSnoc(w.log, e);
      ApplyAt(Fold(w.log), e, k);
    } else {
      assert w.log + [] == w.log;
    }
  }

  lemma TreeAt(w: World, a: Action, k: string)
    requires Enabled(w, a)
    ensures TreeHas(Take(w, a), k) ==
            if ChangesKey(w, a, k) then Written(WriteOne(ChangedBy(w, a).value.cmd, k).value, ChangedBy(w, a).value.id)
            else TreeHas(w, k)
  {
  }

  /** The moves between the stages of a write: log and then insert, or erase and then log. */
  ghost predicate StakeMoves(w: World, a: Action, k: string) {
    var stake, stake' := StakeOf(PcOf(w, a.c), k), StakeOf(PcOf(Take(w, a), a.c), k);
    && !(LogsKey(w, a, k) && ChangesKey(w, a, k))
    && (!LogsKey(w, a, k) && !ChangesKey(w, a, k) ==> stake' == stake)
    && (LogsKey(w, a, k) ==>
          || (stake.NoStake? && stake' == ToInsert(LogSays(Take(w, a), k)))
          || (stake.ToLog? && stake'.NoStake? && LogSays(Take(w, a), k) == None))
    && (ChangesKey(w, a, k) && !a.Evict? ==>
          || (stake == ToInsert(TreeHas(Take(w, a), k)) && stake'.NoStake?)
          || (stake.NoStake? && stake'.ToLog? && TreeHas(Take(w, a), k) == None))
  }

  lemma AppendMoves(w: World, a: Action, k: string)
    requires Enabled(w, a) && a.Append?
    ensures StakeMoves(w, a, k)
  {
    var pc := PcOf(w, a.c);
    LogAt(w, a, k);
    assert a.cmds[0..] == a.cmds;
    if pc.req.Cas? {
      WriteAllCons(a.cmds[0], [], k);
      assert [a.cmds[0]] + [] == a.cmds;
    }
    assert WriteOf(Logs(pc.req, a.cmds), k) == WriteAll(a.cmds, k);
  }

  lemma InsertMoves(w: World, a: Action, k: string)
    requires Enabled(w, a) && a.Insert? && Honest(w)
    ensures StakeMoves(w, a, k)
  {
    var pc := PcOf(w, a.c);
    assert Writes(pc.req, pc.cmds);
    TreeAt(w, a, k);
    WriteAllTail(pc.req, pc.cmds, pc.next, k);
  }

  lemma LogMoves(w: World, a: Action, k: string)
    requires Enabled(w, a) && a.Log?
    ensures StakeMoves(w, a, k)
  {
    LogAt(w, a, k);
  }

  lemma PlainMoves(w: World, a: Action, k: string)
    requires Enabled(w, a) && (a.Place? || a.Erase? || a.Evict?)
    ensures StakeMoves(w, a, k)
  {
    TreeAt(w, a, k);
  }

  lemma OtherMoves(w: World, a: Action, k: string)
    requires Enabled(w, a) && LoggedBy(w, a).None? && ChangedBy(w, a).None? && !a.Append? && !a.Insert?
    requires !a.Log? && !a.Place? && !a.Erase? && !a.Evict?
    ensures StakeMoves(w, a, k)
  {
  }

  lemma StakeStep(w: World, a: Action, k: string)
    requires Enabled(w, a) && Honest(w)
    ensures StakeMoves(w, a, k)
  {
    if a.Append? {
      AppendMoves(w, a, k);
    } else if a.Insert? {
      InsertMoves(w, a, k);
    } else if a.Log? {
      LogMoves(w, a, k);
    } else if a.Place? || a.Erase? || a.Evict? {
      PlainMoves(w, a, k);
    } else {
      OtherMoves(w, a, k);
    }
  }

  lemma OthersStay(w: World, a: Action, c: Client)
    requires c != a.c
    ensures PcOf(Take(w, a), c) == PcOf(w, c)
  {
  }

  // --- The invariant ------------------------------------------------------------------------------------------

  /** At most one client is half done with the key. */
  ghost predicate OneStake(w: World, k: string) {
    forall c: Client, c': Client :: c != c' ==> StakeOf(PcOf(w, c), k).NoStake? || StakeOf(PcOf(w, c'), k).NoStake?
  }

  ghost predicate NobodyHalfDone(w: World, k: string) {
    forall c: Client :: StakeOf(PcOf(w, c), k).NoStake?
  }

  /** What is to be inserted is what the log says last; what is to be logged as removed is gone. */
  ghost predicate StakeHolds(w: World, stake: Stake, k: string) {
    match stake
    case NoStake => true
    case ToInsert(rec) => LogSays(w, k) == rec
    case ToLog => TreeHas(w, k) == None
  }

  ghost predicate KeyInv(w: World, k: string) {
    && OneStake(w, k)
    && (forall c: Client :: StakeHolds(w, StakeOf(PcOf(w, c), k), k))
    && (NobodyHalfDone(w, k) ==> TreeHas(w, k) == LogSays(w, k))
  }

  /** A step that leaves the key alone. */
  lemma IdleStep(w: World, a: Action, k: string)
    requires Enabled(w, a) && Honest(w) && KeyInv(w, k) && !LogsKey(w, a, k) && !ChangesKey(w, a, k)
    ensures KeyInv(Take(w, a), k)
  {
    var w' := Take(w, a);
    LogAt(w, a, k);
    TreeAt(w, a, k);
    StakeStep(w, a, k);
    forall c: Client ensures StakeOf(PcOf(w', c), k) == StakeOf(PcOf(w, c), k) {
      if c != a.c { OthersStay(w, a, c); }
    }
    forall c: Client ensures StakeHolds(w', StakeOf(PcOf(w', c), k), k) {
      assert StakeHolds(w, StakeOf(PcOf(w, c), k), k);
    }
    if NobodyHalfDone(w', k) {
      assert NobodyHalfDone(w, k) by {
        forall c: Client ensures StakeOf(PcOf(w, c), k).NoStake? { assert StakeOf(PcOf(w', c), k).NoStake?; }
      }
    }
  }

  /** A careful step that logs or changes the key. */
  lemma BusyStep(w: World, a: Action, k: string)
    requires Enabled(w, a) && Honest(w) && KeyInv(w, k) && Careful(w, a, k)
    requires LogsKey(w, a, k) || ChangesKey(w, a, k)
    ensures KeyInv(Take(w, a), k)
  {
    var w' := Take(w, a);
    LogAt(w, a, k);
    TreeAt(w, a, k);
    StakeStep(w, a, k);
    assert StakeHolds(w, StakeOf(PcOf(w, a.c), k), k);
    forall c: Client | c != a.c ensures StakeOf(PcOf(w', c), k).NoStake? {
      OthersStay(w, a, c);
    }
    if StakeOf(PcOf(w', a.c), k).NoStake? {
      assert TreeHas(w', k) == LogSays(w', k);
    } else {
      assert !NobodyHalfDone(w', k);
    }
  }

  lemma {:induction false} KeyHolds(actions: seq<Action>, k: string)
    requires Interleaving(actions) && Guarded(actions, k)
    ensures KeyInv(After(actions), k)
  {
    if actions != [] {
      var last := |actions| - 1;
      var w, a := After(actions[..last]), actions[last];
      KeyHolds(actions[..last], k);
      CasRaces.Held(actions[..last]);
      if LogsKey(w, a, k) || ChangesKey(w, a, k) {
        BusyStep(w, a, k);
      } else {
        IdleStep(w, a, k);
      }
    }
  }

  /** Main theorem: if no client logs or changes a key while another is between its log and its
      change of it, and nobody evicts it, then tree and log agree on the key whenever nobody is
      half done with it. */
  lemma KeyAgrees(actions: seq<Action>, k: string)
    requires Interleaving(actions) && Guarded(actions, k) && NobodyHalfDone(After(actions), k)
    ensures Find(After(actions).tree, k) == Find(Fold(After(actions).log), k)
  {
    KeyHolds(actions, k);
  }

  // --- CAS among careful clients ---------------------------------------------------------------------------------

  /** Careful also of clients that have checked the key: nobody logs or changes it between
      another client's check and insertion, or checks it while another is half done. */
  ghost predicate Solitary(w: World, a: Action, k: string) {
    && Careful(w, a, k)
    && (LogsKey(w, a, k) || ChangesKey(w, a, k) ==> forall c: Client :: c != a.c ==> !Pledged(PcOf(w, c), k))
    && (Checks(w, a, a.c, k) ==> forall c: Client :: c != a.c ==> StakeOf(PcOf(w, c), k).NoStake?)
  }

  ghost predicate Exclusive(actions: seq<Action>, k: string) {
    forall n :: 0 <= n < |actions| ==> Solitary(After(actions[..n]), actions[n], k)
  }

  lemma {:induction false} ExclusiveGuarded(actions: seq<Action>, k: string, n: nat)
    requires Exclusive(actions, k) && n <= |actions|
    ensures Guarded(actions[..n], k)
  {
    if n > 0 {
      ExclusiveGuarded(actions, k, n - 1);
      assert actions[..n][..n - 1] == actions[..n - 1];
      assert Solitary(After(actions[..n - 1]), actions[n - 1], k);
    }
  }

  ghost predicate OthersDone(w: World, c: Client, k: string) {
    forall c': Client :: c' != c ==> StakeOf(PcOf(w, c'), k).NoStake?
  }

  /** A step of another client, or of the client itself short of its insertion, disturbs neither
      the key nor the others. */
  lemma SolitaryStep(w: World, a: Action, c: Client, k: string)
    requires Enabled(w, a) && Honest(w) && Solitary(w, a, k)
    requires Pledged(PcOf(w, c), k) && OthersDone(w, c, k) && Pledged(PcOf(Take(w, a), c), k)
    ensures OthersDone(Take(w, a), c, k) && LastWrite(PlainChange(w, a), k).None?
  {
    var w' := Take(w, a);
    if a.c == c {
      OwnStep(w, a, k);
    } else {
      assert !LogsKey(w, a, k) && !ChangesKey(w, a, k);
      StakeStep(w, a, k);
      PlainChangeAt(w, a, k);
    }
    forall c': Client | c' != c ensures StakeOf(PcOf(w', c'), k).NoStake? {
      assert StakeOf(PcOf(w, c'), k).NoStake?;
      if c' != a.c { OthersStay(w, a, c'); }
    }
  }

  lemma PlainChangeAt(w: World, a: Action, k: string)
    ensures LastWrite(PlainChange(w, a), k).Some? ==> ChangesKey(w, a, k)
  {
    var change := PlainChange(w, a);
    if change != [] {
      assert change == [change[0]];
      LastOfOne(change[0], k);
    }
  }

  lemma CheckStep(w: World, a: Action, c: Client, k: string)
    requires Solitary(w, a, k) && Checks(w, a, c, k)
    ensures OthersDone(Take(w, a), c, k)
  {
    forall c': Client | c' != c ensures StakeOf(PcOf(Take(w, a), c'), k).NoStake? { OthersStay(w, a, c'); }
  }

  lemma {:induction false} Undisturbed(actions: seq<Action>, n: nat, c: Client, k: string)
    requires Interleaving(actions) && Exclusive(actions, k) && n <= |actions|
    requires Pledged(PcOf(After(actions[..n]), c), k)
    ensures LastCheck(actions, n, c, k).Some?
    ensures LastWrite(PlainChanges(actions, LastCheck(actions, n, c, k).value, n), k).None?
    ensures OthersDone(After(actions[..n]), c, k)
  {
    if n > 0 {
      var w, a := After(actions[..n - 1]), actions[n - 1];
      assert actions[..n][..n - 1] == actions[..n - 1];
      assert Solitary(w, a, k);
      InterleavingAt(actions, n - 1);
      CasRaces.Held(actions[..n - 1]);
      PledgedStep(w, a, c, k);
      if Checks(w, a, c, k) {
        FirstChange(actions, n);
        CheckStep(w, a, c, k);
      } else {
        Undisturbed(actions, n - 1, c, k);
        SolitaryStep(w, a, c, k);
        LastWriteConcat(PlainChanges(actions, LastCheck(actions, n - 1, c, k).value, n - 1), PlainChange(w, a), k);
      }
    }
  }

  /** Main theorem: where the clients of a key are exclusive in this sense, put and delete
      clients included, the log says right before the entry of a successful CAS what the CAS
      expected: it replaced exactly that. */
  lemma ExclusiveCas(actions: seq<Action>, n: nat, k: string)
    requires Interleaving(actions) && Exclusive(actions, k) && n < |actions| && actions[n].Append?
    requires var pc := PcOf(After(actions[..n]), actions[n].c); pc.Versioned? && pc.req.Cas? && pc.req.key == k
    ensures var c, w := actions[n].c, After(actions[..n]);
            && LastCheck(actions, n, c, k).Some?
            && var m := LastCheck(actions, n, c, k).value;
               actions[m].CheckCas? && Meets(Find(Fold(w.log), k), PcOf(w, c).req.expected, actions[m].now)
  {
    var c, w := actions[n].c, After(actions[..n]);
    InterleavingAt(actions, n);
    Since(actions, n, c, k);
    Undisturbed(actions, n, c, k);
    ExclusiveGuarded(actions, k, n);
    forall c': Client ensures StakeOf(PcOf(w, c'), k).NoStake? { }
    KeyAgrees(actions[..n], k);
  }
}
