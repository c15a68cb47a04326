/**
 Queries and evictions: when a run and the same run without its gets and sweeps answer every
 query alike.
 */
module QueryRuns {
  import opened Prelude
  import opened Ordered
  import opened Store
  import opened Indexes
  import opened Server
  import opened History
  import opened IndexRuns
  import opened StaleRuns
  import opened Query

  // --- What a report depends on ---------------------------------------------------------------------

  /** The report on a whole index set. */
  function Answer(s: State, now: nat, ik: string): seq<Record> {
    Report(s.tree, now, InOrder(IndexedSet(s.indexes, ik)))
  }

  function IsVisible(t: Tree, now: nat): string -> bool {
    k => Visible(Find(t, k), now).Some?
  }

  lemma {:induction false} ReportSkipsInvisible(t: Tree, now: nat, ks: seq<string>)
    ensures Report(t, now, ks) == Report(t, now, Filter(IsVisible(t, now), ks))
  {
    if ks != [] {
      var before, k := ks[..|ks| - 1], ks[|ks| - 1];
      ReportSkipsInvisible(t, now, before);
      var kept := Filter(IsVisible(t, now), before);
      if IsVisible(t, now)(k) {
        ReportSnoc(t, now, kept, k);
      } else {
        assert kept + [] == kept;
      }
    }
  }

  lemma {:induction false} ReportSameView(t: Tree, t': Tree, now: nat, ks: seq<string>)
    requires View(t, now) == View(t', now)
    ensures Report(t, now, ks) == Report(t', now, ks)
  {
    if ks != [] {
      ReportSameView(t, t', now, ks[..|ks| - 1]);
      ViewsEqual(t, t', now);
    }
  }

  /** A report on visible keys names them all, in order. */
  lemma {:induction false} ReportNames(t: Tree, now: nat, ks: seq<string>)
    requires forall k <- ks :: IsVisible(t, now)(k)
    ensures |Report(t, now, ks)| == |ks| && forall i :: 0 <= i < |ks| ==> Report(t, now, ks)[i].key == ks[i]
  {
    if ks != [] {
      assert ks[|ks| - 1] in ks;
      ReportNames(t, now, ks[..|ks| - 1]);
    }
  }

  /** The visible keys of an index set. */
  function Listed(s: State, now: nat, ik: string): set<string> {
    Subset(IndexedSet(s.indexes, ik), IsVisible(s.tree, now))
  }

  lemma AnswerLists(s: State, now: nat, ik: string)
    ensures Answer(s, now, ik) == Report(s.tree, now, InOrder(Listed(s, now, ik)))
  {
    ReportSkipsInvisible(s.tree, now, InOrder(IndexedSet(s.indexes, ik)));
    FilterInOrder(IsVisible(s.tree, now), IndexedSet(s.indexes, ik));
  }

  lemma ReportTellsOrder(t: Tree, now: nat, l: seq<string>, l': seq<string>)
    requires forall k <- l :: IsVisible(t, now)(k)
    requires forall k <- l' :: IsVisible(t, now)(k)
    requires Report(t, now, l) == Report(t, now, l')
    ensures l == l'
  {
    ReportNames(t, now, l);
    ReportNames(t, now, l');
    forall i | 0 <= i < |l| ensures l[i] == l'[i] {
      assert Report(t, now, l)[i].key == l[i];
    }
  }

  lemma OrderTells(ks: set<string>, ks': set<string>)
    requires InOrder(ks) == InOrder(ks')
    ensures ks == ks'
  {
    forall k ensures k in ks <==> k in ks' {
      assert k in ks <==> k in InOrder(ks);
      assert k in ks' <==> k in InOrder(ks');
    }
  }

  /** Reports on visible keys tell their sets apart. */
  lemma ReportTells(t: Tree, now: nat, ks: set<string>, ks': set<string>)
    requires forall k <- ks :: IsVisible(t, now)(k)
    requires forall k <- ks' :: IsVisible(t, now)(k)
    requires Report(t, now, InOrder(ks)) == Report(t, now, InOrder(ks'))
    ensures ks == ks'
  {
    assert forall k <- InOrder(ks) :: k in ks;
    assert forall k <- InOrder(ks') :: k in ks';
    ReportTellsOrder(t, now, InOrder(ks), InOrder(ks'));
    OrderTells(ks, ks');
  }

  lemma ListedVisible(s: State, t: Tree, now: nat, ik: string)
    requires View(s.tree, now) == View(t, now)
    ensures forall k <- Listed(s, now, ik) :: IsVisible(t, now)(k)
  {
    ViewsEqual(s.tree, t, now);
  }

  /** Two servers that show the same answer a query alike exactly when they list the same keys. */
  lemma SameAnswer(s: State, s': State, now: nat, ik: string)
    requires View(s.tree, now) == View(s'.tree, now)
    ensures Answer(s, now, ik) == Answer(s', now, ik) <==> Listed(s, now, ik) == Listed(s', now, ik)
  {
    AnswerLists(s, now, ik);
    AnswerLists(s', now, ik);
    ReportSameView(s.tree, s'.tree, now, InOrder(Listed(s', now, ik)));
    ListedVisible(s, s.tree, now, ik);
    ListedVisible(s', s.tree, now, ik);
    if Answer(s, now, ik) == Answer(s', now, ik) {
      ReportTells(s.tree, now, Listed(s, now, ik), Listed(s', now, ik));
    }
  }

  // --- A run and the run without its evictions ---------------------------------------------------------

  lemma {:induction false} WithoutEvictionsProper(evs: seq<Event>)
    requires forall i :: 0 <= i < |evs| ==> Proper(evs[i].op)
    ensures forall i :: 0 <= i < |WithoutEvictions(evs)| ==> Proper(WithoutEvictions(evs)[i].op)
  {
    if evs != [] {
      WithoutEvictionsProper(evs[..|evs| - 1]);
    }
  }

  /** A visible key is listed when its record has the index key, or when it was left stale. */
  lemma ListedAt(c: Config, evs: seq<Event>, now: nat, ik: string, k: string)
    requires forall i :: 0 <= i < |evs| ==> Proper(evs[i].op)
    ensures var s := Run(c, FRESH, evs);
            k in Listed(s, now, ik) <==>
            Visible(Find(s.tree, k), now).Some? && (Files(c, s.tree, ik, k) || LeftStaleBy(c, evs, ik, k))
  {
    RunIndex(c, evs, ik, k);
  }

  /** If the key is visible, both runs left it stale, or neither did. */
  ghost predicate SameStaleAt(c: Config, evs: seq<Event>, now: nat, ik: string, k: string) {
    Visible(Find(Run(c, FRESH, evs).tree, k), now).Some? ==>
      (LeftStaleBy(c, evs, ik, k) <==> LeftStaleBy(c, WithoutEvictions(evs), ik, k))
  }

  ghost predicate SameStale(c: Config, evs: seq<Event>, now: nat, ik: string) {
    forall k :: SameStaleAt(c, evs, now, ik, k)
  }

  lemma SameFiles(c: Config, t: Tree, t': Tree, now: nat, ik: string, k: string)
    requires View(t, now) == View(t', now) && Visible(Find(t, k), now).Some?
    ensures Files(c, t, ik, k) == Files(c, t', ik, k) && Visible(Find(t', k), now).Some?
  {
    ViewsEqual(t, t', now);
    assert Visible(Find(t, k), now) == Visible(Find(t', k), now);
  }

  lemma NoticesView(c: Config, evs: seq<Event>, now: nat)
    requires Timely(evs) && NeverNotices(c, evs) && now >= Clock(evs)
    ensures View(Run(c, FRESH, evs).tree, now) == View(Run(c, FRESH, WithoutEvictions(evs)).tree, now)
  {
    SameLogUpTo(c, evs, |evs|);
    SameLogSameView(c, evs);
    ViewLater(Run(c, FRESH, evs).tree, Run(c, FRESH, WithoutEvictions(evs)).tree, Clock(evs), now);
  }

  lemma ListedAlike(c: Config, evs: seq<Event>, now: nat, ik: string, k: string)
    requires Timely(evs) && View(Run(c, FRESH, evs).tree, now) == View(Run(c, FRESH, WithoutEvictions(evs)).tree, now)
    ensures (k in Listed(Run(c, FRESH, evs), now, ik) <==> k in Listed(Run(c, FRESH, WithoutEvictions(evs)), now, ik))
            <==> SameStaleAt(c, evs, now, ik, k)
  {
    var evs' := WithoutEvictions(evs);
    var t, t' := Run(c, FRESH, evs).tree, Run(c, FRESH, evs').tree;
    WithoutEvictionsProper(evs);
    ListedAt(c, evs, now, ik, k);
    ListedAt(c, evs', now, ik, k);
    RunIndex(c, evs, ik, k);
    RunIndex(c, evs', ik, k);
    if Visible(Find(t, k), now).Some? {
      SameFiles(c, t, t', now, ik, k);
    } else if Visible(Find(t', k), now).Some? {
      SameFiles(c, t', t, now, ik, k);
    }
  }

  /** Main theorem: where no write notices an eviction, a query for everything under an index key
      is answered as it would be without the gets and sweeps, if and only if the CAS requests of
      both runs left the same visible keys stale under it. */
  lemma EvictionsInQueries(c: Config, evs: seq<Event>, now: nat, ik: string)
    requires Timely(evs) && NeverNotices(c, evs) && now >= Clock(evs)
    ensures Answer(Run(c, FRESH, evs), now, ik) == Answer(Run(c, FRESH, WithoutEvictions(evs)), now, ik)
            <==> SameStale(c, evs, now, ik)
  {
    var s, s' := Run(c, FRESH, evs), Run(c, FRESH, WithoutEvictions(evs));
    NoticesView(c, evs, now);
    SameAnswer(s, s', now, ik);
    SetsAlike(c, evs, now, ik);
  }

  lemma SetsAlike(c: Config, evs: seq<Event>, now: nat, ik: string)
    requires Timely(evs) && View(Run(c, FRESH, evs).tree, now) == View(Run(c, FRESH, WithoutEvictions(evs)).tree, now)
    ensures Listed(Run(c, FRESH, evs), now, ik) == Listed(Run(c, FRESH, WithoutEvictions(evs)), now, ik)
            <==> SameStale(c, evs, now, ik)
  {
    var l, l' := Listed(Run(c, FRESH, evs), now, ik), Listed(Run(c, FRESH, WithoutEvictions(evs)), now, ik);
    forall k ensures (k in l <==> k in l') <==> SameStaleAt(c, evs, now, ik, k) { ListedAlike(c, evs, now, ik, k); }
    if !SameStale(c, evs, now, ik) {
      var k :| !SameStaleAt(c, evs, now, ik, k);
      assert !(k in l <==> k in l');
    } else {
      forall k ensures k in l <==> k in l' { assert SameStaleAt(c, evs, now, ik, k); }
    }
  }

  // --- Runs without stale entries ------------------------------------------------------------------------

  /** The events kept of the first `n` come first among those kept of all. */
  lemma {:induction false} KeptPrefix(evs: seq<Event>, n: nat)
    requires n <= |evs|
    ensures |WithoutEvictions(evs[..n])| <= |WithoutEvictions(evs)|
    ensures WithoutEvictions(evs)[..|WithoutEvictions(evs[..n])|] == WithoutEvictions(evs[..n])
  {
    if n == |evs| {
      assert evs[..n] == evs;
    } else {
      KeptPrefix(evs[..|evs| - 1], n);
      assert evs[..|evs| - 1][..n] == evs[..n];
    }
  }

  lemma KeptAt(evs: seq<Event>, n: nat)
    requires n < |evs| && !Evicts(evs[n])
    ensures var m := |WithoutEvictions(evs[..n])|;
            m < |WithoutEvictions(evs)| && WithoutEvictions(evs)[m] == evs[n] &&
            WithoutEvictions(evs)[..m] == WithoutEvictions(evs[..n])
  {
    KeptPrefix(evs, n);
    KeptPrefix(evs, n + 1);
    WithoutEvictionsSnoc(evs, n);
    var m := |WithoutEvictions(evs[..n])|;
    assert WithoutEvictions(evs)[..m + 1][m] == evs[n];
  }

  /** Evictions cannot make a CAS leave something stale. */
  lemma StaleAnyway(c: Config, s: State, s': State, ev: Event)
    requires Trails(s.tree, s'.tree, ev.now) && LeavesStale(c, s, ev)
    ensures LeavesStale(c, s', ev)
  {
    assert Find(s.tree, ev.op.key) == Find(s'.tree, ev.op.key);
  }

  lemma NeverStaleEither(c: Config, evs: seq<Event>)
    requires Timely(evs) && NeverNotices(c, evs) && NeverStale(c, WithoutEvictions(evs))
    ensures NeverStale(c, evs)
  {
    forall n | 0 <= n < |evs| ensures !LeavesStale(c, Run(c, FRESH, evs[..n]), evs[n]) {
      if LeavesStale(c, Run(c, FRESH, evs[..n]), evs[n]) {
        StaleInBoth(c, evs, n);
      }
    }
  }

  lemma StaleInBoth(c: Config, evs: seq<Event>, n: nat)
    requires Timely(evs) && NeverNotices(c, evs) && n < |evs| && LeavesStale(c, Run(c, FRESH, evs[..n]), evs[n])
    ensures !NeverStale(c, WithoutEvictions(evs))
  {
    var before, m := evs[..n], |WithoutEvictions(evs[..n])|;
    var s, s' := Run(c, FRESH, before), Run(c, FRESH, WithoutEvictions(before));
    SameLogUpTo(c, evs, n);
    TimelyTake(evs, n);
    RunTrails(c, before);
    TrailsLater(s.tree, Fold(s.sent), Clock(before), evs[n].now);
    WithoutEvictionsFacts(before);
    UnevictedTree(c, WithoutEvictions(before));
    StaleAnyway(c, s, s', evs[n]);
    KeptAt(evs, n);
    assert LeavesStale(c, Run(c, FRESH, WithoutEvictions(evs)[..m]), WithoutEvictions(evs)[m]);
  }

  lemma NoneLeftStale(c: Config, evs: seq<Event>, ik: string, k: string)
    requires Timely(evs) && NeverStale(c, evs)
    ensures !LeftStaleBy(c, evs, ik, k)
  {
    RunIndex(c, evs, ik, k);
    ExactUpTo(c, evs, |evs|);
    assert evs[..|evs|] == evs;
    var s := Run(c, FRESH, evs);
    assert InIndex(s.indexes, ik, k) <==> Files(c, s.tree, ik, k);
  }

  lemma {:induction false} WithoutEvictionsTimely(evs: seq<Event>)
    requires Timely(evs)
    ensures Timely(WithoutEvictions(evs)) && Clock(WithoutEvictions(evs)) <= Clock(evs)
    ensures forall i :: 0 <= i < |WithoutEvictions(evs)| ==> WithoutEvictions(evs)[i].now <= Clock(evs)
  {
    if evs != [] {
      TimelyPrefix(evs);
      WithoutEvictionsTimely(evs[..|evs| - 1]);
    }
  }

  /** In particular, evictions go unnoticed by queries where the run without them leaves nothing
      stale. */
  lemma NothingStaleNothingNoticed(c: Config, evs: seq<Event>, now: nat, ik: string)
    requires Timely(evs) && NeverNotices(c, evs) && NeverStale(c, WithoutEvictions(evs)) && now >= Clock(evs)
    ensures Answer(Run(c, FRESH, evs), now, ik) == Answer(Run(c, FRESH, WithoutEvictions(evs)), now, ik)
  {
    NeverStaleEither(c, evs);
    WithoutEvictionsTimely(evs);
    EvictionsInQueries(c, evs, now, ik);
    forall k ensures SameStaleAt(c, evs, now, ik, k) {
      NoneLeftStale(c, evs, ik, k);
      NoneLeftStale(c, WithoutEvictions(evs), ik, k);
    }
  }

  // --- Pages ---------------------------------------------------------------------------------------------

  lemma {:induction false} ReportConcat(t: Tree, now: nat, a: seq<string>, b: seq<string>)
    ensures Report(t, now, a + b) == Report(t, now, a) + Report(t, now, b)
  {
    if b == [] {
      assert a + b == a;
    } else {
      ReportConcat(t, now, a, b[..|b| - 1]);
      assert (a + b)[..|a + b| - 1] == a + b[..|b| - 1];
    }
  }

  /** The report on the first page with the given number of places. */
  function PageAnswer(s: State, now: nat, ik: string, limit: nat): seq<Record> {
    Report(s.tree, now, Page(InOrder(IndexedSet(s.indexes, ik)), 0, limit))
  }

  /** How many of its places hold visible keys. */
  function VisibleOnPage(s: State, now: nat, ik: string, limit: nat): nat {
    |Filter(IsVisible(s.tree, now), Page(InOrder(IndexedSet(s.indexes, ik)), 0, limit))|
  }

  lemma PageIsPrefix(s: State, now: nat, ik: string, limit: nat)
    ensures PageAnswer(s, now, ik, limit) <= Answer(s, now, ik)
    ensures |PageAnswer(s, now, ik, limit)| == VisibleOnPage(s, now, ik, limit)
  {
    var l := InOrder(IndexedSet(s.indexes, ik));
    var page := Page(l, 0, limit);
    assert l == page + l[|page|..];
    ReportConcat(s.tree, now, page, l[|page|..]);
    ReportSkipsInvisible(s.tree, now, page);
    FilterMembers(IsVisible(s.tree, now), page);
    ReportNames(s.tree, now, Filter(IsVisible(s.tree, now), page));
  }

  /** Where whole answers agree, answers on the first page do, if and only if as many of its
      places hold visible keys with the evictions as without. */
  lemma EvictionsInPages(c: Config, evs: seq<Event>, now: nat, ik: string, limit: nat)
    requires Timely(evs) && NeverNotices(c, evs) && SameStale(c, evs, now, ik) && now >= Clock(evs)
    ensures var s, s' := Run(c, FRESH, evs), Run(c, FRESH, WithoutEvictions(evs));
            PageAnswer(s, now, ik, limit) == PageAnswer(s', now, ik, limit) <==>
            VisibleOnPage(s, now, ik, limit) == VisibleOnPage(s', now, ik, limit)
  {
    var s, s' := Run(c, FRESH, evs), Run(c, FRESH, WithoutEvictions(evs));
    EvictionsInQueries(c, evs, now, ik);
    PageIsPrefix(s, now, ik, limit);
    PageIsPrefix(s', now, ik, limit);
    SamePrefix(Answer(s, now, ik), PageAnswer(s, now, ik, limit), PageAnswer(s', now, ik, limit));
  }

  lemma SamePrefix<T>(s: seq<T>, a: seq<T>, b: seq<T>)
    requires a <= s && b <= s
    ensures a == b <==> |a| == |b|
  {
  }

  // --- Runs in which a query does notice -------------------------------------------------------------------

  function SweptThenCas(k: string, v: Bytes, v': Bytes): seq<Event> {
    [At(0, OpPut(k, v, Some(5))), At(9, OpSweep), At(9, OpCas(k, [], v', None))]
  }

  lemma SweptThenCasKept(k: string, v: Bytes, v': Bytes)
    ensures WithoutEvictions(SweptThenCas(k, v, v')) == [At(0, OpPut(k, v, Some(5))), At(9, OpCas(k, [], v', None))]
  {
    var evs := SweptThenCas(k, v, v');
    WithoutEvictionsSnoc(evs, 0);
    WithoutEvictionsSnoc(evs, 1);
    WithoutEvictionsSnoc(evs, 2);
    assert evs[..0] == [] && evs[..3] == evs;
  }

  lemma SweptRun(c: Config, k: string, v: Bytes, v': Bytes)
    ensures var evs := SweptThenCas(k, v, v');
            && Find(Run(c, FRESH, evs[..1]).tree, k) == Some(DbRecord(v, Some(5), 1))
            && Find(Run(c, FRESH, evs[..2]).tree, k) == None
            && Find(Run(c, FRESH, evs).tree, k) == Some(DbRecord(v', None, 2))
  {
    var evs := SweptThenCas(k, v, v');
    RunSnoc(c, FRESH, evs, 0);
    RunSnoc(c, FRESH, evs, 1);
    RunSnoc(c, FRESH, evs, 2);
    assert evs[..0] == [] && evs[..3] == evs;
    SweepFrame(c, Run(c, FRESH, evs[..1]), 9);
  }

  /** After the sweep nothing about the key is left in the index, so the CAS leaves nothing stale. */
  lemma SweptClean(c: Config, k: string, v: Bytes, v': Bytes, ik: string)
    requires ik in c.extract(k, v) && ik !in c.extract(k, v')
    ensures !LeftStaleBy(c, SweptThenCas(k, v, v'), ik, k)
  {
    var evs := SweptThenCas(k, v, v');
    SweptRun(c, k, v, v');
    var s1, s2 := Run(c, FRESH, evs[..1]), Run(c, FRESH, evs[..2]);
    RunSnoc(c, FRESH, evs, 1);
    RunSnoc(c, FRESH, evs, 2);
    assert evs[..3] == evs;
    RunComplete(c, evs[..1]);
    RunComplete(c, evs[..2]);
    ExecIndexAt(c, s1, evs[1], ik, k);
    ExecIndexAt(c, s2, evs[2], ik, k);
    RunIndex(c, evs, ik, k);
  }

  /** A sweep that no write notices, and that a query does: without it the CAS stores over the
      expired record and leaves it in the index. */
  lemma SweepSeenByQuery(c: Config, k: string, v: Bytes, v': Bytes, ik: string)
    requires ik in c.extract(k, v) && ik !in c.extract(k, v')
    ensures var evs := SweptThenCas(k, v, v');
            && Timely(evs) && NeverNotices(c, evs)
            && Answer(Run(c, FRESH, evs), 9, ik) != Answer(Run(c, FRESH, WithoutEvictions(evs)), 9, ik)
  {
    var evs := SweptThenCas(k, v, v');
    SweptThenCasKept(k, v, v');
    SweptRun(c, k, v, v');
    SweptClean(c, k, v, v', ik);
    KeptLeavesStale(c, k, v, v', ik);
    NothingToNotice(c, evs);
    EvictionsInQueries(c, evs, 9, ik);
    assert !SameStaleAt(c, evs, 9, ik, k);
  }

  lemma KeptLeavesStale(c: Config, k: string, v: Bytes, v': Bytes, ik: string)
    requires ik in c.extract(k, v) && ik !in c.extract(k, v')
    ensures LeftStaleBy(c, [At(0, OpPut(k, v, Some(5))), At(9, OpCas(k, [], v', None))], ik, k)
  {
    StaleEntryExists(c, k, v, v', ik);
    RunIndex(c, [At(0, OpPut(k, v, Some(5))), At(9, OpCas(k, [], v', None))], ik, k);
  }

  function TwoKeys(a: string, b: string, v: Bytes): seq<Event> {
    [At(0, OpPut(a, v, Some(5))), At(0, OpPut(b, v, None)), At(9, OpSweep)]
  }

  lemma TwoKeysKept(a: string, b: string, v: Bytes)
    ensures WithoutEvictions(TwoKeys(a, b, v)) == TwoKeys(a, b, v)[..2]
  {
    var evs := TwoKeys(a, b, v);
    WithoutEvictionsSnoc(evs, 0);
    WithoutEvictionsSnoc(evs, 1);
    WithoutEvictionsSnoc(evs, 2);
    assert evs[..0] == [] && evs[..3] == evs && evs[..2] == [evs[0], evs[1]];
  }

  lemma TwoKeysStored(c: Config, a: string, b: string, v: Bytes)
    requires a != b
    ensures Run(c, FRESH, TwoKeys(a, b, v)[..2]).tree == map[a := DbRecord(v, Some(5), 1), b := DbRecord(v, None, 2)]
  {
    var evs := TwoKeys(a, b, v);
    RunSnoc(c, FRESH, evs, 0);
    RunSnoc(c, FRESH, evs, 1);
    assert evs[..0] == [];
  }

  lemma SweptOf(c: Config, s: State, a: string, b: string, v: Bytes)
    requires a != b && s.tree == map[a := DbRecord(v, Some(5), 1), b := DbRecord(v, None, 2)]
    ensures SweepStep(c, s, 9).tree == map[b := DbRecord(v, None, 2)]
  {
    SweepFrame(c, s, 9);
    LiveOf(s.tree, a, b, v);
  }

  lemma LiveOf(t: Tree, a: string, b: string, v: Bytes)
    requires a != b && t == map[a := DbRecord(v, Some(5), 1), b := DbRecord(v, None, 2)]
    ensures t - ExpiredKeys(t, 9) == map[b := DbRecord(v, None, 2)]
  {
    assert ExpiredKeys(t, 9) == {a};
  }

  lemma TwoKeysSwept(c: Config, a: string, b: string, v: Bytes)
    requires a != b
    ensures Run(c, FRESH, TwoKeys(a, b, v)).tree == map[b := DbRecord(v, None, 2)]
  {
    var evs := TwoKeys(a, b, v);
    var s := Run(c, FRESH, evs[..2]);
    TwoKeysStored(c, a, b, v);
    SweptOf(c, s, a, b, v);
    RunLast(c, evs[..2], At(9, OpSweep));
    assert evs[..2] + [At(9, OpSweep)] == evs;
  }

  /** Under exact indexes a set holds the keys of the records that extract it. */
  lemma ExactSet(c: Config, s: State, v: Bytes, ik: string, ks: set<string>)
    requires Exact(c, s.tree, s.indexes) && s.tree.Keys == ks
    requires forall k <- ks :: s.tree[k].value == v && ik in c.extract(k, v)
    ensures IndexedSet(s.indexes, ik) == ks
  {
    forall k ensures k in IndexedSet(s.indexes, ik) <==> k in ks {
      assert InIndex(s.indexes, ik, k) <==> Files(c, s.tree, ik, k);
    }
  }

  lemma FirstPage(t: Tree, now: nat, ks: set<string>, k: string)
    requires k in ks && forall k' <- ks :: k' != k ==> LexLt(k, k')
    ensures Report(t, now, Page(InOrder(ks), 0, 1)) == Report(t, now, [k])
  {
    var l := InOrder(ks);
    assert k in l;
    var i :| 0 <= i < |l| && l[i] == k;
    if i > 0 {
      assert l[0] in l && LexLt(l[0], k) && LexLt(k, l[0]);
      LexAntisymmetric(l[0], k);
    }
    assert l[..1] == [k];
  }

  lemma NoCasNoStale(c: Config, evs: seq<Event>, n: nat)
    requires n <= |evs| && forall i :: 0 <= i < |evs| ==> !evs[i].op.OpCas?
    ensures NeverStale(c, evs) && Exact(c, Run(c, FRESH, evs[..n]).tree, Run(c, FRESH, evs[..n]).indexes)
  {
    ExactUpTo(c, evs, n);
  }

  lemma NothingToNotice(c: Config, evs: seq<Event>)
    requires forall i :: 0 <= i < |evs| ==> !evs[i].op.OpDelete? && !evs[i].op.OpCommit?
    ensures NeverNotices(c, evs)
  {
  }

  /** A report on the first key of a set of two, or of one, that all have the index key. */
  lemma OnePlace(c: Config, s: State, ks: set<string>, k: string, v: Bytes, ik: string)
    requires Exact(c, s.tree, s.indexes) && s.tree.Keys == ks && k in ks
    requires forall k' <- ks :: s.tree[k'].value == v && ik in c.extract(k', v) && (k' != k ==> LexLt(k, k'))
    ensures PageAnswer(s, 9, ik, 1) ==
            if IsExpired(s.tree[k].expiresAt, 9) then [] else [Record(k, v, s.tree[k].expiresAt)]
  {
    ExactSet(c, s, v, ik, ks);
    FirstPage(s.tree, 9, ks, k);
    assert [k][..0] == [];
  }

  /** With exact indexes, a sweep that a query with a limit notices: an expired key takes up the
      only place on the page. */
  lemma SweepSeenByPage(c: Config, a: string, b: string, v: Bytes, ik: string)
    requires LexLt(a, b) && ik in c.extract(a, v) && ik in c.extract(b, v)
    ensures var evs := TwoKeys(a, b, v);
            var s, s' := Run(c, FRESH, evs), Run(c, FRESH, WithoutEvictions(evs));
            && Timely(evs) && NeverNotices(c, evs) && NeverStale(c, evs)
            && PageAnswer(s, 9, ik, 1) == [Record(b, v, None)] && PageAnswer(s', 9, ik, 1) == []
  {
    TwoKeysQuiet(c, a, b, v);
    TwoKeysKept(a, b, v);
    PageAfter(c, a, b, v, ik);
    PageBefore(c, a, b, v, ik);
  }

  lemma TwoKeysQuiet(c: Config, a: string, b: string, v: Bytes)
    ensures Timely(TwoKeys(a, b, v)) && NeverNotices(c, TwoKeys(a, b, v))
  {
    NothingToNotice(c, TwoKeys(a, b, v));
  }

  lemma PageAfter(c: Config, a: string, b: string, v: Bytes, ik: string)
    requires a != b && ik in c.extract(b, v)
    ensures var s := Run(c, FRESH, TwoKeys(a, b, v));
            PageAnswer(s, 9, ik, 1) == [Record(b, v, None)]
    ensures NeverStale(c, TwoKeys(a, b, v))
  {
    var evs := TwoKeys(a, b, v);
    TwoKeysSwept(c, a, b, v);
    NoCasNoStale(c, evs, 3);
    assert evs[..3] == evs;
    OnePlace(c, Run(c, FRESH, evs), {b}, b, v, ik);
  }

  lemma PageBefore(c: Config, a: string, b: string, v: Bytes, ik: string)
    requires LexLt(a, b) && ik in c.extract(a, v) && ik in c.extract(b, v)
    ensures var s := Run(c, FRESH, TwoKeys(a, b, v)[..2]);
            PageAnswer(s, 9, ik, 1) == []
  {
    var evs := TwoKeys(a, b, v);
    TwoKeysStored(c, a, b, v);
    NoCasNoStale(c, evs, 2);
    OnePlace(c, Run(c, FRESH, evs[..2]), {a, b}, a, v, ik);
  }
}
