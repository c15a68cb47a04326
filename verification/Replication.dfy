/**
 Leader and follower over their whole common life: the leader runs on, while the follower
 syncs, loses, repeats and reorders log records, reconnects, and evicts.
 */
module Replication {
  import opened Prelude
  import opened Store
  import opened Server
  import opened History
  import opened Replica
  import opened Sync

  /** Something that happens at the follower: one of its own steps, or a sync round of whose
      reply the first `received` payloads arrive (all of them, if there are no more). */
  datatype Happening = Local(action: Action) | Syncs(received: nat)

  /** It happens at a clock reading, when the leader has executed its first `led` events. */
  datatype Moment = Moment(led: nat, now: nat, what: Happening)

  function Happen(c: Config, leader: State, f: Follower, m: Moment): Follower {
    match m.what
    case Local(action) => Do(c, f, Step(m.now, action))
    case Syncs(received) =>
      Follower(ReceiveAll(c, f.state, First(SyncPayloads(leader, f.state.version, m.now), received)), true)
  }

  function First(ps: seq<Payload>, n: nat): seq<Payload> {
    if n <= |ps| then ps[..n] else ps
  }

  function LeaderAt(c: Config, evs: seq<Event>, m: Moment): State {
    Run(c, FRESH, if m.led <= |evs| then evs[..m.led] else evs)
  }

  /** The follower, from its first start on. */
  function Happened(c: Config, evs: seq<Event>, ms: seq<Moment>): Follower {
    if ms == [] then Follower(FRESH, false)
    else
      var last := |ms| - 1;
      Happen(c, LeaderAt(c, evs, ms[last]), Happened(c, evs, ms[..last]), ms[last])
  }

  /** A moment at which records, if any arrive, are ones the leader has announced. */
  ghost predicate Possible(c: Config, evs: seq<Event>, m: Moment) {
    && m.led <= |evs| && Clock(evs[..m.led]) <= m.now
    && (m.what.Local? && m.what.action.Arrives? ==> Authentic(LeaderAt(c, evs, m).sent, m.what.action.payload))
    && (m.what.Local? && m.what.action.Evicts? ==> m.what.action.op.OpGet? || m.what.action.op.OpSweep?)
  }

  ghost predicate Story(c: Config, evs: seq<Event>, ms: seq<Moment>) {
    && (forall i :: 0 <= i < |ms| ==> Possible(c, evs, ms[i]))
    && (forall i, j :: 0 <= i < j < |ms| ==> ms[i].led <= ms[j].led && ms[i].now <= ms[j].now)
  }

  // --- What goes wrong ---------------------------------------------------------------------------

  /** A command writes every key that a tree shows. */
  ghost predicate Covers(cmd: WalCommand, t: Tree, now: nat) {
    forall k :: Visible(Find(t, k), now).Some? ==> WriteOf(cmd, k).Some?
  }

  /** The chunks that arrive of a snapshot reply. */
  function Delivered(leader: State, now: nat, received: nat): seq<Payload> {
    First(ChunksOf(ToRecords(SnapshotOf(leader.tree, now)), leader.version), received)
  }

  /** A key that the delivered chunks do not mention, and that looks different at the follower:
      one that the leader no longer shows, or one in a chunk that got lost. */
  ghost predicate Missed(delivered: seq<Record>, follower: Tree, leader: Tree, now: nat) {
    exists k :: LastRecord(delivered, k).None? && Visible(Find(follower, k), now) != Visible(Find(leader, k), now)
  }

  /** The two ways to spoil a follower: at version 0, where gaps go unnoticed, it accepts a
      record that does not cover what the skipped ones left; or it takes over the version of a
      snapshot that does not mention all differences. */
  ghost predicate Spoils(leader: State, f: Follower, m: Moment) {
    match m.what
    case Local(action) =>
      && action.Arrives? && action.payload.WalRecord? && f.connected && f.state.version == 0
      && 1 <= action.payload.txId <= |leader.sent|
      && !Covers(leader.sent[action.payload.txId - 1].cmd, Fold(leader.sent[..action.payload.txId - 1]), m.now)
    case Syncs(received) =>
      && BeyondLog(leader, f.state.version)
      && Delivered(leader, m.now, received) != []
      && Missed(Flat(Delivered(leader, m.now, received)), f.state.tree, leader.tree, m.now)
  }

  // --- One moment ------------------------------------------------------------------------------------

  /** The leader's state at a moment: numbered, and showing what its log says. */
  ghost predicate Leads(s: State, now: nat) {
    Numbered(s) && View(s.tree, now) == View(Fold(s.sent), now)
  }

  lemma EmptyViewAt(t: Tree, now: nat, k: string)
    requires View(t, now) == map[]
    ensures Visible(Find(t, k), now) == None
  {
    ViewAt(t, now, k);
  }

  /** The first record that a follower at version 0 accepts. */
  lemma FirstRecordShows(c: Config, log: seq<LogEntry>, s: State, n: nat, now: nat)
    requires Consecutive(log) && Shows(log, s, now) && s.version == 0 && 1 <= n <= |log|
    ensures var s' := Receive(c, s, WalRecord(n, Some(log[n - 1].cmd)));
            s'.version == n && (Shows(log, s', now) <==> Covers(log[n - 1].cmd, Fold(log[..n - 1]), now))
  {
    var e, skipped := log[n - 1], Fold(log[..n - 1]);
    ApplyRecordTree(c, s, e);
    assert log[..0] == [] && View(s.tree, now) == map[];
    assert log[..n] == log[..n - 1] + [e];
    FoldSnoc(log[..n - 1], e);
    FirstRecordView(s.tree, skipped, e, now);
  }

  lemma FirstRecordView(t: Tree, skipped: Tree, e: LogEntry, now: nat)
    requires View(t, now) == map[]
    ensures View(Apply(t, e), now) == View(Apply(skipped, e), now) <==> Covers(e.cmd, skipped, now)
  {
    ViewsEqual(Apply(t, e), Apply(skipped, e), now);
    forall k ensures Visible(Find(Apply(t, e), k), now) == Visible(Find(Apply(skipped, e), k), now) <==>
                     (Visible(Find(skipped, k), now).Some? ==> WriteOf(e.cmd, k).Some?) {
      EmptyViewAt(t, now, k);
      ApplyAt(t, e, k);
      ApplyAt(skipped, e, k);
    }
  }

  lemma LocalShows(c: Config, s: State, f: Follower, m: Moment)
    requires Leads(s, m.now) && Shows(s.sent, f.state, m.now) && m.what.Local?
    requires m.what.action.Arrives? ==> Authentic(s.sent, m.what.action.payload)
    requires m.what.action.Evicts? ==> m.what.action.op.OpGet? || m.what.action.op.OpSweep?
    ensures var f' := Happen(c, s, f, m);
            f'.state.version >= f.state.version && (Shows(s.sent, f'.state, m.now) <==> !Spoils(s, f, m))
  {
    if f.state.version > 0 {
      DoShows(c, s.sent, f, Step(m.now, m.what.action));
    } else {
      match m.what.action
      case Reconnects =>
      case Arrives(p) =>
        if f.connected {
          FirstRecordShows(c, s.sent, f.state, p.txId, m.now);
        }
      case Evicts(op) =>
        ExecEffect(c, f.state, At(m.now, op));
        EvictionKeepsView(c, f.state, At(m.now, op), m.now);
    }
  }

  lemma {:induction false} LastRecordIn(rs: seq<Record>, k: string)
    requires LastRecord(rs, k).Some?
    ensures exists i :: 0 <= i < |rs| && rs[i].key == k && LastRecord(rs, k) == Some(Seen(rs[i].value, rs[i].expiresAt))
  {
    var last := |rs| - 1;
    if rs[last].key != k {
      LastRecordIn(rs[..last], k);
      var i :| 0 <= i < last && rs[i].key == k && LastRecord(rs, k) == Some(Seen(rs[i].value, rs[i].expiresAt));
      assert rs[i].key == k;
    }
  }

  lemma {:induction false} FlatPrefix(ps: seq<Payload>, n: nat)
    requires n <= |ps|
    ensures Flat(ps[..n]) <= Flat(ps)
  {
    if n == |ps| {
      assert ps[..n] == ps;
    } else {
      FlatPrefix(ps[..|ps| - 1], n);
      assert ps[..|ps| - 1][..n] == ps[..n];
    }
  }

  /** What chunks deliver for a key is what the leader shows for it. */
  lemma DeliveredIsLive(leader: State, now: nat, received: nat, k: string)
    ensures var rs := Flat(Delivered(leader, now, received));
            LastRecord(rs, k).Some? ==> LastRecord(rs, k) == Visible(Find(leader.tree, k), now)
  {
    var ps := ChunksOf(ToRecords(SnapshotOf(leader.tree, now)), leader.version);
    var rs := Flat(Delivered(leader, now, received));
    SnapshotReply(leader.tree, now, leader.version);
    FlatPrefix(ps, if received <= |ps| then received else |ps|);
    assert ps[..|ps|] == ps;
    if LastRecord(rs, k).Some? {
      LastRecordIn(rs, k);
      var i :| 0 <= i < |rs| && rs[i].key == k && LastRecord(rs, k) == Some(Seen(rs[i].value, rs[i].expiresAt));
      assert Flat(ps)[i] == rs[i];
    }
  }

  /** What a key shows once the delivered chunks are loaded. */
  lemma AfterChunks(c: Config, s: State, r: State, now: nat, received: nat, k: string)
    ensures var ps := Delivered(s, now, received);
            Visible(Find(ReceiveAll(c, r, ps).tree, k), now) ==
            if LastRecord(Flat(ps), k).Some? then Visible(Find(s.tree, k), now) else Visible(Find(r.tree, k), now)
  {
    var ps := Delivered(s, now, received);
    ChunksCarryAll(ToRecords(SnapshotOf(s.tree, now)), s.version);
    ReceiveChunks(c, r, ps, s.version);
    LoadRecordsAt(c, r, Flat(ps), s.version, k);
    DeliveredIsLive(s, now, received, k);
  }

  lemma ChunksView(c: Config, s: State, r: State, now: nat, received: nat)
    ensures var ps := Delivered(s, now, received);
            View(ReceiveAll(c, r, ps).tree, now) == View(s.tree, now) <==> !Missed(Flat(ps), r.tree, s.tree, now)
  {
    var ps := Delivered(s, now, received);
    var r' := ReceiveAll(c, r, ps);
    ViewsEqual(r'.tree, s.tree, now);
    forall k ensures Visible(Find(r'.tree, k), now) == Visible(Find(s.tree, k), now) <==>
                     !(LastRecord(Flat(ps), k).None? &&
                         Visible(Find(r.tree, k), now) != Visible(Find(s.tree, k), now)) {
      AfterChunks(c, s, r, now, received, k);
    }
  }

  lemma ChunksVersion(c: Config, s: State, r: State, now: nat, received: nat)
    ensures var ps := Delivered(s, now, received);
            ReceiveAll(c, r, ps).version == if ps == [] then r.version else s.version
    ensures Delivered(s, now, received) == [] ==> ReceiveAll(c, r, Delivered(s, now, received)) == r
  {
    ChunksCarryAll(ToRecords(SnapshotOf(s.tree, now)), s.version);
    ReceiveChunks(c, r, Delivered(s, now, received), s.version);
    LoadRecordsFrame(c, r, Flat(Delivered(s, now, received)), s.version);
  }

  lemma SnapshotShows(c: Config, s: State, r: State, now: nat, received: nat)
    requires Leads(s, now) && Shows(s.sent, r, now)
    ensures var ps := Delivered(s, now, received);
            var r' := ReceiveAll(c, r, ps);
            r'.version >= r.version && (Shows(s.sent, r', now) <==> ps == [] || !Missed(Flat(ps), r.tree, s.tree, now))
  {
    ChunksVersion(c, s, r, now, received);
    ChunksView(c, s, r, now, received);
    assert s.sent[..|s.sent|] == s.sent;
  }

  /** Any first part of a log reply leaves the follower further on in the log. */
  lemma LogReplyShows(c: Config, s: State, r: State, now: nat, received: nat)
    requires Leads(s, now) && Shows(s.sent, r, now)
    ensures var r' := ReceiveAll(c, r, First(AsPayloads(s.sent[r.version..]), received));
            r'.version >= r.version && Shows(s.sent, r', now)
  {
    var v := r.version;
    var n := if received <= |s.sent| - v then received else |s.sent| - v;
    var log := s.sent[..v + n];
    assert log[..v] == s.sent[..v];
    assert First(AsPayloads(s.sent[v..]), received) == AsPayloads(log[v..]);
    ReceiveTail(c, log, r, now);
    ShowsOn(log, s.sent, ReceiveAll(c, r, AsPayloads(log[v..])), now, now);
  }

  lemma SyncShows(c: Config, s: State, f: Follower, m: Moment)
    requires Leads(s, m.now) && Shows(s.sent, f.state, m.now) && m.what.Syncs?
    ensures var f' := Happen(c, s, f, m);
            f'.state.version >= f.state.version && (Shows(s.sent, f'.state, m.now) <==> !Spoils(s, f, m))
  {
    NeedsSnapshotExact(s, f.state.version);
    if BeyondLog(s, f.state.version) {
      SnapshotShows(c, s, f.state, m.now, m.what.received);
    } else {
      LogReply(s, f.state.version, m.now);
      LogReplyShows(c, s, f.state, m.now, m.what.received);
    }
  }

  // --- The whole story -------------------------------------------------------------------------------

  function SentAfter(c: Config, evs: seq<Event>, n: nat): seq<LogEntry>
    requires n <= |evs|
  {
    Run(c, FRESH, evs[..n]).sent
  }

  lemma SentKept(c: Config, evs: seq<Event>, n: nat)
    requires n < |evs|
    ensures SentAfter(c, evs, n) <= SentAfter(c, evs, n + 1)
  {
    RunSnoc(c, FRESH, evs, n);
    ExecEffect(c, Run(c, FRESH, evs[..n]), evs[n]);
  }

  /** Sequences that extend one another step by step. */
  lemma {:induction false} PrefixChain<T>(ss: seq<seq<T>>, a: nat, b: nat)
    requires a <= b < |ss| && forall n :: 0 <= n < |ss| - 1 ==> ss[n] <= ss[n + 1]
    ensures ss[a] <= ss[b]
    decreases b
  {
    if a < b {
      PrefixChain(ss, a, b - 1);
      assert ss[b - 1] <= ss[b - 1 + 1];
    }
  }

  lemma SentGrows(c: Config, evs: seq<Event>, a: nat, b: nat)
    requires a <= b <= |evs|
    ensures SentAfter(c, evs, a) <= SentAfter(c, evs, b)
  {
    var ss := seq(|evs| + 1, n requires 0 <= n <= |evs| => SentAfter(c, evs, n));
    forall n | 0 <= n < |ss| - 1 ensures ss[n] <= ss[n + 1] { SentKept(c, evs, n); }
    PrefixChain(ss, a, b);
  }

  lemma LeadsAt(c: Config, evs: seq<Event>, n: nat, now: nat)
    requires Timely(evs) && n <= |evs| && Clock(evs[..n]) <= now
    ensures Leads(Run(c, FRESH, evs[..n]), now)
  {
    var s := Run(c, FRESH, evs[..n]);
    TimelyTake(evs, n);
    RunNumbered(c, evs[..n]);
    RunTrails(c, evs[..n]);
    TrailsLater(s.tree, Fold(s.sent), Clock(evs[..n]), now);
    TrailsSameView(s.tree, Fold(s.sent), now);
  }

  /** A follower that shows a log shows every longer one, and later too. */
  lemma ShowsOn(log: seq<LogEntry>, longer: seq<LogEntry>, s: State, now: nat, later: nat)
    requires Shows(log, s, now) && log <= longer && now <= later
    ensures Shows(longer, s, later)
  {
    assert longer[..s.version] == log[..s.version];
    ViewLater(s.tree, Fold(log[..s.version]), now, later);
  }

  /** After `n` moments the follower shows the leader's log up to its version. */
  ghost predicate ShowsAt(c: Config, evs: seq<Event>, ms: seq<Moment>, n: nat)
    requires n <= |ms|
  {
    var f := Happened(c, evs, ms[..n]);
    if n == 0 then Shows([], f.state, 0) else Shows(LeaderAt(c, evs, ms[n - 1]).sent, f.state, ms[n - 1].now)
  }

  ghost predicate SpoiltAt(c: Config, evs: seq<Event>, ms: seq<Moment>, n: nat)
    requires n < |ms|
  {
    Spoils(LeaderAt(c, evs, ms[n]), Happened(c, evs, ms[..n]), ms[n])
  }

  lemma HappenedSnoc(c: Config, evs: seq<Event>, ms: seq<Moment>, n: nat)
    requires n < |ms|
    ensures Happened(c, evs, ms[..n + 1]) == Happen(c, LeaderAt(c, evs, ms[n]), Happened(c, evs, ms[..n]), ms[n])
  {
    assert ms[..n + 1][..n] == ms[..n];
  }

  /** Until the next moment the follower keeps showing the leader's log, however it has grown. */
  lemma ShowsUntilNext(c: Config, evs: seq<Event>, ms: seq<Moment>, n: nat)
    requires Story(c, evs, ms) && n < |ms| && ShowsAt(c, evs, ms, n)
    ensures Shows(LeaderAt(c, evs, ms[n]).sent, Happened(c, evs, ms[..n]).state, ms[n].now)
  {
    var m, s, r := ms[n], LeaderAt(c, evs, ms[n]), Happened(c, evs, ms[..n]).state;
    assert Possible(c, evs, m);
    if n == 0 {
      ShowsOn([], s.sent, r, 0, m.now);
    } else {
      assert Possible(c, evs, ms[n - 1]);
      SentGrows(c, evs, ms[n - 1].led, m.led);
      ShowsOn(LeaderAt(c, evs, ms[n - 1]).sent, s.sent, r, ms[n - 1].now, m.now);
    }
  }

  lemma MomentShows(c: Config, s: State, f: Follower, m: Moment)
    requires Leads(s, m.now) && Shows(s.sent, f.state, m.now)
    requires m.what.Local? && m.what.action.Arrives? ==> Authentic(s.sent, m.what.action.payload)
    requires m.what.Local? && m.what.action.Evicts? ==> m.what.action.op.OpGet? || m.what.action.op.OpSweep?
    ensures var f' := Happen(c, s, f, m);
            f'.state.version >= f.state.version && (Shows(s.sent, f'.state, m.now) <==> !Spoils(s, f, m))
  {
    if m.what.Local? {
      LocalShows(c, s, f, m);
    } else {
      SyncShows(c, s, f, m);
    }
  }

  lemma StoryStep(c: Config, evs: seq<Event>, ms: seq<Moment>, n: nat)
    requires Timely(evs) && Story(c, evs, ms) && n < |ms| && ShowsAt(c, evs, ms, n)
    ensures ShowsAt(c, evs, ms, n + 1) <==> !SpoiltAt(c, evs, ms, n)
    ensures Happened(c, evs, ms[..n + 1]).state.version >= Happened(c, evs, ms[..n]).state.version
  {
    var m := ms[n];
    assert Possible(c, evs, m);
    ShowsUntilNext(c, evs, ms, n);
    LeadsAt(c, evs, m.led, m.now);
    HappenedSnoc(c, evs, ms, n);
    MomentShows(c, LeaderAt(c, evs, m), Happened(c, evs, ms[..n]), m);
  }

  ghost predicate NeverSpoilt(c: Config, evs: seq<Event>, ms: seq<Moment>) {
    forall n :: 0 <= n < |ms| ==> !SpoiltAt(c, evs, ms, n)
  }

  lemma {:induction false} ShowsUpTo(c: Config, evs: seq<Event>, ms: seq<Moment>, n: nat)
    requires Timely(evs) && Story(c, evs, ms) && NeverSpoilt(c, evs, ms) && n <= |ms|
    ensures ShowsAt(c, evs, ms, n)
  {
    if n > 0 {
      ShowsUpTo(c, evs, ms, n - 1);
      StoryStep(c, evs, ms, n - 1);
    }
  }

  /** Main theorem: in every common life of a leader and a follower, from the follower's first
      start on, the follower shows at all times what the leader's log says up to its version, if
      and only if it is never spoilt. */
  lemma FollowerShows(c: Config, evs: seq<Event>, ms: seq<Moment>)
    requires Timely(evs) && Story(c, evs, ms)
    ensures (forall n :: 0 <= n <= |ms| ==> ShowsAt(c, evs, ms, n)) <==> NeverSpoilt(c, evs, ms)
  {
    if NeverSpoilt(c, evs, ms) {
      forall n | 0 <= n <= |ms| ensures ShowsAt(c, evs, ms, n) { ShowsUpTo(c, evs, ms, n); }
    } else {
      var n :| 0 <= n < |ms| && SpoiltAt(c, evs, ms, n);
      if ShowsAt(c, evs, ms, n) {
        StoryStep(c, evs, ms, n);
        assert !ShowsAt(c, evs, ms, n + 1);
      }
    }
  }

  function VersionAt(c: Config, evs: seq<Event>, ms: seq<Moment>, n: nat): nat
    requires n <= |ms|
  {
    Happened(c, evs, ms[..n]).state.version
  }

  /** And its version never goes back. */
  lemma VersionGrows(c: Config, evs: seq<Event>, ms: seq<Moment>, n: nat)
    requires Timely(evs) && Story(c, evs, ms) && NeverSpoilt(c, evs, ms) && n < |ms|
    ensures VersionAt(c, evs, ms, n) <= VersionAt(c, evs, ms, n + 1)
  {
    ShowsUpTo(c, evs, ms, n);
    StoryStep(c, evs, ms, n);
  }
}
