/**
 Servers that are restarted any number of times.
 */
module Lifetimes {
  import opened Prelude
  import opened Store
  import opened Server
  import opened Restart

  datatype LifeEvent = Does(ev: Event) | Restarts(at: nat)

  function TimeOf(e: LifeEvent): nat {
    if e.Does? then e.ev.now else e.at
  }

  /** The server that a restart brings up: from the files alone, with an empty cache. */
  function Restarted(c: Config, s: State, now: nat): State {
    var b := Rebuild(c, s.snapshot, s.wal, now);
    s.(tree := b.tree, indexes := b.indexes, cache := [], version := b.maxVer)
  }

  function LiveStep(c: Config, s: State, e: LifeEvent): State {
    match e
    case Does(ev) => Exec(c, s, ev)
    case Restarts(at) => Restarted(c, s, at)
  }

  function Live(c: Config, life: seq<LifeEvent>): State {
    if life == [] then FRESH else LiveStep(c, Live(c, life[..|life| - 1]), life[|life| - 1])
  }

  lemma LiveSnoc(c: Config, life: seq<LifeEvent>, n: nat)
    requires n < |life|
    ensures Live(c, life[..n + 1]) == LiveStep(c, Live(c, life[..n]), life[n])
  {
    assert life[..n + 1][..n] == life[..n];
  }

  /** The clock does not go back, across restarts either. */
  ghost predicate Ordered(life: seq<LifeEvent>) {
    forall i, j :: 0 <= i < j < |life| ==> TimeOf(life[i]) <= TimeOf(life[j])
  }

  function Now(life: seq<LifeEvent>): nat {
    if life == [] then 0 else TimeOf(life[|life| - 1])
  }

  /** A restart that brings no overwritten value back. */
  ghost predicate Harmless(s: State, now: nat) {
    forall k :: !Resurrects(s, k, now)
  }

  /** What a key shows after a restart, now and later. */
  lemma RestartedAt(c: Config, s: State, now: nat, k: string, later: nat)
    requires DistinctRecords(s.snapshot) && now <= later
    ensures Visible(Find(Restarted(c, s, now).tree, k), later) ==
            match LastEffective(s.wal, k, now)
            case None => Visible(InSnapshot(s.snapshot, k), later)
            case Some(w) => Visible(Written(w, 0), later)
  {
    LoadAt(c, s.snapshot, now, k);
    ReplayAt(c, Load(c, s.snapshot, now), s.wal, now, k);
  }

  /** A restart leaves a server whose files promise what it shows exactly when it is harmless. */
  lemma RestartDurable(c: Config, s: State, before: nat, now: nat)
    requires Durable(s, before) && before <= now
    ensures Durable(Restarted(c, s, now), now) <==> Harmless(s, now)
  {
    var s' := Restarted(c, s, now);
    if Harmless(s, now) {
      forall k, later | later >= now ensures Visible(Find(s'.tree, k), later) == Visible(Promised(s', k), later) {
        assert !Resurrects(s, k, now);
        RestartedAt(c, s, now, k, later);
        EffectiveVsLast(s.wal, k, now);
      }
    } else {
      var k :| Resurrects(s, k, now);
      RebuildAt(c, s, now, k);
      assert Visible(Promised(s', k), now) == None;
      assert Visible(Find(s'.tree, k), now) != None;
    }
  }

  ghost predicate HarmlessLife(c: Config, life: seq<LifeEvent>) {
    forall n :: 0 <= n < |life| && life[n].Restarts? ==> Harmless(Live(c, life[..n]), life[n].at)
  }

  ghost predicate DurableAt(c: Config, life: seq<LifeEvent>, n: nat)
    requires n <= |life|
  {
    Durable(Live(c, life[..n]), Now(life[..n]))
  }

  lemma LiveDurableStep(c: Config, life: seq<LifeEvent>, n: nat)
    requires Ordered(life) && n < |life| && DurableAt(c, life, n)
    ensures DurableAt(c, life, n + 1) <==> (life[n].Restarts? ==> Harmless(Live(c, life[..n]), life[n].at))
  {
    var s, before := Live(c, life[..n]), Now(life[..n]);
    LiveSnoc(c, life, n);
    match life[n]
    case Does(ev) => ExecDurable(c, s, before, ev);
    case Restarts(at) => RestartDurable(c, s, before, at);
  }

  lemma {:induction false} DurableUpTo(c: Config, life: seq<LifeEvent>, n: nat)
    requires Ordered(life) && HarmlessLife(c, life) && n <= |life|
    ensures DurableAt(c, life, n)
  {
    if n > 0 {
      DurableUpTo(c, life, n - 1);
      LiveDurableStep(c, life, n - 1);
    }
  }

  /** Main theorem: through any number of restarts, snapshots and log promise what clients see
      at all times if and only if every restart is harmless. */
  lemma LifeDurable(c: Config, life: seq<LifeEvent>)
    requires Ordered(life)
    ensures (forall n :: 0 <= n <= |life| ==> DurableAt(c, life, n)) <==> HarmlessLife(c, life)
  {
    if HarmlessLife(c, life) {
      forall n | 0 <= n <= |life| ensures DurableAt(c, life, n) { DurableUpTo(c, life, n); }
    } else {
      var n :| 0 <= n < |life| && life[n].Restarts? && !Harmless(Live(c, life[..n]), life[n].at);
      if DurableAt(c, life, n) {
        LiveDurableStep(c, life, n);
        assert !DurableAt(c, life, n + 1);
      }
    }
  }

  /** And after any such life the next restart shows a key as the live server did, exactly
      unless it resurrects the key. */
  lemma NextRestartAgrees(c: Config, life: seq<LifeEvent>, now: nat, k: string)
    requires Ordered(life) && HarmlessLife(c, life) && now >= Now(life)
    ensures var s := Live(c, life);
            Visible(Find(Restarted(c, s, now).tree, k), now) == Visible(Find(s.tree, k), now) <==>
            !Resurrects(s, k, now)
  {
    DurableUpTo(c, life, |life|);
    assert life[..|life|] == life;
    DurableAgrees(c, Live(c, life), Now(life), now, k);
  }
}
