/**
 The read cache over whole runs: when reads through it answer as the tree alone would.
 */
module CacheRuns {
  import opened Prelude
  import opened Store
  import opened Server
  import opened History
  import Lru = LruSpec

  /** Every cached value is the value of a record that never expires. */
  ghost predicate Coherent(s: State) {
    forall k :: Lru.Lookup(s.cache, k).Some? ==>
      k in s.tree && s.tree[k].value == Lru.Lookup(s.cache, k).value && s.tree[k].expiresAt == None
  }

  /** Coherence is exactly what makes reads through the cache answer as the tree would. */
  lemma CoherentIsTransparent(s: State, now: nat)
    ensures Coherent(s) <==> forall k :: GetAnswer(s, now, k) == Visible(Find(s.tree, k), now)
  {
    if forall k :: GetAnswer(s, now, k) == Visible(Find(s.tree, k), now) {
      forall k | Lru.Lookup(s.cache, k).Some?
        ensures k in s.tree && s.tree[k].value == Lru.Lookup(s.cache, k).value && s.tree[k].expiresAt == None
      {
        assert GetAnswer(s, now, k) == Visible(Find(s.tree, k), now);
      }
    }
  }

  /** A put with a TTL over a cached key: the cache keeps the old value. */
  predicate ShadowsCache(s: State, ev: Event) {
    ev.op.OpPut? && ev.op.expiresAt.Some? && Lru.Lookup(s.cache, ev.op.key).Some?
  }

  lemma {:induction false} WriteStepsCache(c: Config, s: State, ver: nat, cmds: seq<WalCommand>)
    requires Lru.DistinctKeys(s.cache)
    ensures var s' := WriteSteps(c, s, ver, cmds);
            Lru.DistinctKeys(s'.cache) && |s'.cache| <= |s.cache| && (Coherent(s) ==> Coherent(s'))
  {
    if cmds != [] {
      WriteStepsCache(c, s, ver, cmds[..|cmds| - 1]);
      var s', cmd := WriteSteps(c, s, ver, cmds[..|cmds| - 1]), cmds[|cmds| - 1];
      if !cmd.TxCommit? {
        DropUpdate(s', cmd.key);
      }
    }
  }

  /** Dropping a key from the cache makes it safe to change that key's record. */
  lemma DropUpdate(s: State, k: string)
    requires Lru.DistinctKeys(s.cache)
    ensures Lru.DistinctKeys(Lru.Without(s.cache, k)) && |Lru.Without(s.cache, k)| <= |s.cache|
    ensures forall k' :: Lru.Lookup(Lru.Without(s.cache, k), k') == if k' == k then None else Lru.Lookup(s.cache, k')
  {
    Lru.WithoutDistinct(s.cache, k);
    forall k' { Lru.WithoutLookup(s.cache, k, k'); }
  }

  lemma PutUpdate(c: Config, s: State, k: string, v: Bytes)
    requires c.capacity > 0 && Lru.DistinctKeys(s.cache) && Coherent(s)
    ensures Coherent(PutStep(c, s, k, v, None)) && Lru.DistinctKeys(PutStep(c, s, k, v, None).cache)
  {
    Lru.PutDistinct(c.capacity, s.cache, k, v);
    forall k' { Lru.PutLookup(c.capacity, s.cache, k, v, k'); }
  }

  lemma TtlPutUpdate(c: Config, s: State, k: string, v: Bytes, e: Option<nat>)
    requires e.Some? && Coherent(s)
    ensures Coherent(PutStep(c, s, k, v, e)) <==> Lru.Lookup(s.cache, k).None?
  {
    var s' := PutStep(c, s, k, v, e);
    assert s'.cache == s.cache && s'.tree[k].expiresAt == e;
    if Lru.Lookup(s.cache, k).Some? {
      assert Lru.Lookup(s'.cache, k).Some?;
    }
  }

  /** The key that changes is out of the cache afterwards. */
  lemma DropKeepsCoherent(s: State, s': State, k: string)
    requires Lru.DistinctKeys(s.cache) && Coherent(s)
    requires s'.cache == Lru.Without(s.cache, k)
    requires forall k' :: k' != k ==> Find(s'.tree, k') == Find(s.tree, k')
    ensures Coherent(s')
  {
    DropUpdate(s, k);
    forall k' | Lru.Lookup(s'.cache, k').Some?
      ensures k' in s'.tree && s'.tree[k'].value == Lru.Lookup(s'.cache, k').value && s'.tree[k'].expiresAt == None
    {
      assert Lru.Lookup(s.cache, k').Some?;
      assert Find(s'.tree, k') == Find(s.tree, k');
    }
  }

  /** Evictions touch records that expire, and none of those is cached. */
  lemma EvictionKeepsCoherent(s: State, s': State, now: nat)
    requires Coherent(s) && s'.cache == s.cache && Trails(s'.tree, s.tree, now)
    ensures Coherent(s')
  {
    forall k | Lru.Lookup(s'.cache, k).Some?
      ensures k in s'.tree && s'.tree[k].value == Lru.Lookup(s'.cache, k).value && s'.tree[k].expiresAt == None
    {
      assert Find(s'.tree, k) == Find(s.tree, k) ||
          (k !in s'.tree && k in s.tree && IsExpired(s.tree[k].expiresAt, now));
    }
  }

  /** Deletes and CAS drop the key they change. */
  lemma DropSteps(c: Config, s: State, ev: Event)
    requires Lru.DistinctKeys(s.cache) && Coherent(s) && (ev.op.OpDelete? || ev.op.OpCas?)
    ensures Lru.DistinctKeys(Exec(c, s, ev).cache) && Coherent(Exec(c, s, ev))
  {
    ExecEffect(c, s, ev);
    DropUpdate(s, ev.op.key);
    if Announces(s, ev).Some? {
      forall k | k != ev.op.key ensures Find(Exec(c, s, ev).tree, k) == Find(s.tree, k) {
        ApplyAt(s.tree, LogEntry(s.version + 1, Announces(s, ev).value), k);
      }
      DropKeepsCoherent(s, Exec(c, s, ev), ev.op.key);
    }
  }

  /** Gets and sweeps drop expired records, and a hit only moves its entry. */
  lemma EvictSteps(c: Config, s: State, ev: Event)
    requires Lru.DistinctKeys(s.cache) && Coherent(s) && Evicts(ev)
    ensures Lru.DistinctKeys(Exec(c, s, ev).cache) && Coherent(Exec(c, s, ev))
  {
    ExecEffect(c, s, ev);
    match ev.op
    case OpGet(k) =>
      Lru.TouchDistinct(s.cache, k);
      if Lru.Lookup(s.cache, k).None? {
        EvictionKeepsCoherent(s, Exec(c, s, ev), ev.now);
      }
    case OpSweep =>
      SweepFrame(c, s, ev.now);
      EvictionKeepsCoherent(s, Exec(c, s, ev), ev.now);
  }

  /** Each step keeps coherence unless it shadows the cache. */
  lemma ExecCache(c: Config, s: State, ev: Event)
    requires c.capacity > 0 && Lru.DistinctKeys(s.cache) && Coherent(s)
    ensures Lru.DistinctKeys(Exec(c, s, ev).cache)
    ensures Coherent(Exec(c, s, ev)) <==> !ShadowsCache(s, ev)
  {
    match ev.op
    case OpPut(k, v, e) =>
      if e.None? {
        PutUpdate(c, s, k, v);
      } else {
        TtlPutUpdate(c, s, k, v, e);
      }
    case OpDelete(_) => DropSteps(c, s, ev);
    case OpCas(_, _, _, _) => DropSteps(c, s, ev);
    case OpCommit(ws, snap, cmds) => WriteStepsCache(c, Logged(s, TxCommit(cmds)), s.version + 1, cmds);
    case OpGet(_) => EvictSteps(c, s, ev);
    case OpSweep => EvictSteps(c, s, ev);
    case OpSnapshot(_) =>
  }

  lemma ExecDistinct(c: Config, s: State, ev: Event)
    requires c.capacity > 0 && Lru.DistinctKeys(s.cache)
    ensures Lru.DistinctKeys(Exec(c, s, ev).cache)
  {
    match ev.op
    case OpPut(k, v, e) => Lru.PutDistinct(c.capacity, s.cache, k, v);
    case OpDelete(k) => DropUpdate(s, k);
    case OpCas(k, _, _, _) => DropUpdate(s, k);
    case OpCommit(ws, snap, cmds) => WriteStepsCache(c, Logged(s, TxCommit(cmds)), s.version + 1, cmds);
    case OpGet(k) => Lru.TouchDistinct(s.cache, k);
    case OpSweep => SweepFrame(c, s, ev.now);
    case OpSnapshot(_) =>
  }

  lemma {:induction false} RunCacheDistinct(c: Config, evs: seq<Event>)
    requires c.capacity > 0
    ensures Lru.DistinctKeys(Run(c, FRESH, evs).cache)
  {
    if evs != [] {
      RunCacheDistinct(c, evs[..|evs| - 1]);
      ExecDistinct(c, Run(c, FRESH, evs[..|evs| - 1]), evs[|evs| - 1]);
    }
  }

  ghost predicate NeverShadows(c: Config, evs: seq<Event>) {
    forall n :: 0 <= n < |evs| ==> !ShadowsCache(Run(c, FRESH, evs[..n]), evs[n])
  }

  /** After `n` steps every read at `now` answers as the tree would. */
  ghost predicate Transparent(c: Config, evs: seq<Event>, n: nat, now: nat)
    requires n <= |evs|
  {
    forall k :: GetAnswer(Run(c, FRESH, evs[..n]), now, k) == Visible(Find(Run(c, FRESH, evs[..n]).tree, k), now)
  }

  /** Main theorem: in every state of a run every read answers as the tree would, exactly when
      no TTL put of the run lands on a cached key. */
  lemma RunTransparent(c: Config, evs: seq<Event>, now: nat)
    requires c.capacity > 0
    ensures (forall n :: 0 <= n <= |evs| ==> Transparent(c, evs, n, now)) <==> NeverShadows(c, evs)
  {
    if NeverShadows(c, evs) {
      forall n | 0 <= n <= |evs| ensures Transparent(c, evs, n, now) {
        CoherentUpTo(c, evs, n);
        CoherentIsTransparent(Run(c, FRESH, evs[..n]), now);
      }
    } else {
      var n :| 0 <= n < |evs| && ShadowsCache(Run(c, FRESH, evs[..n]), evs[n]);
      NotBothTransparent(c, evs, n, now);
      assert !Transparent(c, evs, n, now) || !Transparent(c, evs, n + 1, now);
    }
  }

  lemma NotBothTransparent(c: Config, evs: seq<Event>, n: nat, now: nat)
    requires c.capacity > 0 && n < |evs| && ShadowsCache(Run(c, FRESH, evs[..n]), evs[n])
    ensures !Transparent(c, evs, n, now) || !Transparent(c, evs, n + 1, now)
  {
    var s := Run(c, FRESH, evs[..n]);
    RunCacheDistinct(c, evs[..n]);
    RunSnoc(c, FRESH, evs, n);
    CoherentIsTransparent(s, now);
    if Coherent(s) {
      ExecCache(c, s, evs[n]);
      CoherentIsTransparent(Exec(c, s, evs[n]), now);
    }
  }

  lemma {:induction false} CoherentUpTo(c: Config, evs: seq<Event>, n: nat)
    requires c.capacity > 0 && NeverShadows(c, evs) && n <= |evs|
    ensures Coherent(Run(c, FRESH, evs[..n]))
  {
    if n > 0 {
      CoherentUpTo(c, evs, n - 1);
      RunCacheDistinct(c, evs[..n - 1]);
      RunSnoc(c, FRESH, evs, n - 1);
      ExecCache(c, Run(c, FRESH, evs[..n - 1]), evs[n - 1]);
    }
  }

  /** A run that does shadow the cache: a plain put, then one with a TTL.  Reads answer with the
      first value while the second is live, and still do when the key has expired. */
  lemma StaleRead(c: Config, k: string, v: Bytes, v': Bytes)
    requires c.capacity > 0
    ensures var evs := [At(0, OpPut(k, v, None)), At(0, OpPut(k, v', Some(5)))];
            var s := Run(c, FRESH, evs);
            && Timely(evs)
            && Visible(Find(s.tree, k), 3) == Some(Seen(v', Some(5))) && Visible(Find(s.tree, k), 9) == None
            && GetAnswer(s, 3, k) == GetAnswer(s, 9, k) == Some(Seen(v, None))
  {
    var evs := [At(0, OpPut(k, v, None)), At(0, OpPut(k, v', Some(5)))];
    RunSnoc(c, FRESH, evs, 0);
    RunSnoc(c, FRESH, evs, 1);
    assert evs[..0] == [] && evs[..2] == evs;
    Lru.PutLookup(c.capacity, [], k, v, k);
  }

  // --- The cache of a run is the cache of a trace ---------------------------------------------------

  /** What a transaction's writes do to the cache. */
  function Dropped(cmds: seq<WalCommand>): seq<Lru.Op<string, Bytes>> {
    if cmds == [] then []
    else
      var cmd := cmds[|cmds| - 1];
      Dropped(cmds[..|cmds| - 1]) + if cmd.TxCommit? then [] else [Lru.OpInvalidate(cmd.key)]
  }

  /** What a step does to the cache: gets use it, puts without a TTL fill it, puts with a TTL do not
      touch it, and whatever else is logged drops its keys. */
  function CacheUse(s: State, ev: Event): seq<Lru.Op<string, Bytes>> {
    match Announces(s, ev)
    case Some(Put(k, v, e)) =>
      if ev.op.OpCas? then [Lru.OpInvalidate(k)] else if e.None? then [Lru.OpPut(k, v)] else []
    case Some(Delete(k)) => [Lru.OpInvalidate(k)]
    case Some(TxCommit(cmds)) => Dropped(cmds)
    case None => if ev.op.OpGet? then [Lru.OpGet(ev.op.key)] else []
  }

  function CacheTrace(c: Config, evs: seq<Event>): seq<Lru.Op<string, Bytes>> {
    if evs == [] then []
    else
      var before := evs[..|evs| - 1];
      CacheTrace(c, before) + CacheUse(Run(c, FRESH, before), evs[|evs| - 1])
  }

  lemma AfterSnoc(capacity: nat, trace: seq<Lru.Op<string, Bytes>>, op: Lru.Op<string, Bytes>)
    ensures Lru.After(capacity, trace + [op]) == Lru.Apply(capacity, Lru.After(capacity, trace), op)
  {
    assert (trace + [op])[..|trace|] == trace;
  }

  lemma {:induction false} WritesDrop(c: Config, s: State, ver: nat, cmds: seq<WalCommand>,
                                      trace: seq<Lru.Op<string, Bytes>>)
    requires s.cache == Lru.After(c.capacity, trace)
    ensures WriteSteps(c, s, ver, cmds).cache == Lru.After(c.capacity, trace + Dropped(cmds))
  {
    if cmds == [] {
      assert trace + [] == trace;
    } else {
      var before, cmd := cmds[..|cmds| - 1], cmds[|cmds| - 1];
      WritesDrop(c, s, ver, before, trace);
      if cmd.TxCommit? {
        assert Dropped(cmds) == Dropped(before);
      } else {
        assert trace + Dropped(cmds) == (trace + Dropped(before)) + [Lru.OpInvalidate(cmd.key)];
        AfterSnoc(c.capacity, trace + Dropped(before), Lru.OpInvalidate(cmd.key));
      }
    }
  }

  lemma StepUses(c: Config, s: State, ev: Event, trace: seq<Lru.Op<string, Bytes>>)
    requires s.cache == Lru.After(c.capacity, trace)
    ensures Exec(c, s, ev).cache == Lru.After(c.capacity, trace + CacheUse(s, ev))
  {
    if ev.op.OpCommit? && Announces(s, ev).Some? {
      WritesDrop(c, Logged(s, TxCommit(ev.op.cmds)), s.version + 1, ev.op.cmds, trace);
    } else {
      SingleUse(c, s, ev);
      if CacheUse(s, ev) == [] {
        assert trace + [] == trace;
      } else {
        AfterSnoc(c.capacity, trace, CacheUse(s, ev)[0]);
      }
    }
  }

  lemma SingleUse(c: Config, s: State, ev: Event)
    requires ev.op.OpCommit? ==> Announces(s, ev).None?
    ensures var use := CacheUse(s, ev);
            |use| <= 1 &&
            Exec(c, s, ev).cache == if use == [] then s.cache else Lru.Apply(c.capacity, s.cache, use[0])
  {
    match ev.op
    case OpCas(k, expected, v, e) => CasUse(c, s, ev.now, k, expected, v, e);
    case OpGet(k) => assert Lru.Lookup(s.cache, k).None? ==> Lru.Touch(s.cache, k) == s.cache;
    case OpSweep => SweepFrame(c, s, ev.now);
    case _ =>
  }

  lemma CasUse(c: Config, s: State, now: nat, k: string, expected: Bytes, v: Bytes, e: Option<nat>)
    ensures CasStep(c, s, now, k, expected, v, e).cache ==
            if CasSucceeds(s.tree, now, k, expected) then Lru.Without(s.cache, k) else s.cache
  {
  }

  /** In every run the server's cache is the least-recently-used cache of the trace of its gets, its
      puts without a TTL, and the keys it otherwise changed; `LruSpec` says what such a cache holds. */
  lemma {:induction false} CacheIsTrace(c: Config, evs: seq<Event>)
    ensures Run(c, FRESH, evs).cache == Lru.After(c.capacity, CacheTrace(c, evs))
  {
    if evs != [] {
      var before := evs[..|evs| - 1];
      CacheIsTrace(c, before);
      StepUses(c, Run(c, FRESH, before), evs[|evs| - 1], CacheTrace(c, before));
    }
  }
}
