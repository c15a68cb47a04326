/**
 Lazy eviction beside running clients.  A get that finds a record expired removes whatever the
 key holds when it comes to remove it.
 */
module EvictRaces {
  import opened Prelude
  import opened Store
  import opened Server
  import opened Concurrency
  import opened CasRaces
  import opened KeyGuard

  /** The changes of all clients from the `m`-th action on, up to the `n`-th. */
  function Changes(actions: seq<Action>, m: nat, n: nat): seq<LogEntry>
    requires n <= |actions|
  {
    if n <= m then []
    else Changes(actions, m, n - 1) + ChangeOf(After(actions[..n - 1]), actions[n - 1])
  }

  function ChangeOf(w: World, a: Action): seq<LogEntry> {
    if ChangedBy(w, a).Some? && !ChangedBy(w, a).value.cmd.TxCommit? then [ChangedBy(w, a).value] else []
  }

  lemma ChangeOfAt(w: World, a: Action, k: string)
    requires Enabled(w, a)
    ensures Find(Take(w, a).tree, k) == Overlaid(Find(w.tree, k), ChangeOf(w, a), k)
  {
    TreeAt(w, a, k);
    if ChangeOf(w, a) != [] {
      LastOfOne(ChangedBy(w, a).value, k);
    }
  }

  lemma {:induction false} ChangesAt(actions: seq<Action>, m: nat, n: nat, k: string)
    requires Interleaving(actions) && m <= n <= |actions|
    ensures Find(After(actions[..n]).tree, k) == Overlaid(Find(After(actions[..m]).tree, k), Changes(actions, m, n), k)
    decreases n
  {
    if m < n {
      var w, a := After(actions[..n - 1]), actions[n - 1];
      assert actions[..n][..n - 1] == actions[..n - 1];
      InterleavingAt(actions, n - 1);
      ChangesAt(actions, m, n - 1, k);
      ChangeOfAt(w, a, k);
      LastWriteConcat(Changes(actions, m, n - 1), ChangeOf(w, a), k);
    }
  }

  /** The client's last look before the `n`-th action. */
  function LastPeek(actions: seq<Action>, n: nat, c: Client): (m: Option<nat>)
    requires n <= |actions|
    ensures m.Some? ==> m.value < n && actions[m.value].Peek?
  {
    if n == 0 then None
    else if actions[n - 1].Peek? && actions[n - 1].c == c then Some(n - 1)
    else LastPeek(actions, n - 1, c)
  }

  lemma DoomedStep(w: World, a: Action, c: Client)
    requires Enabled(w, a) && PcOf(Take(w, a), c).Doomed?
    ensures var pc := PcOf(Take(w, a), c);
            if a.Peek? && a.c == c then
              && pc.req.PlainGet? && pc.req.key in w.tree && IsExpired(w.tree[pc.req.key].expiresAt, a.now)
            else PcOf(w, c) == pc
  {
    if a.c != c {
      OthersStay(w, a, c);
    }
  }

  /** A doomed key was found expired by the client's last look. */
  lemma {:induction false} DoomedSince(actions: seq<Action>, n: nat, c: Client)
    requires Interleaving(actions) && n <= |actions| && PcOf(After(actions[..n]), c).Doomed?
    ensures var req := PcOf(After(actions[..n]), c).req;
            && req.PlainGet? && LastPeek(actions, n, c).Some?
            && var m := LastPeek(actions, n, c).value;
               var r := Find(After(actions[..m]).tree, req.key);
               r.Some? && IsExpired(r.value.expiresAt, actions[m].now)
  {
    if n > 0 {
      assert actions[..n][..n - 1] == actions[..n - 1];
      InterleavingAt(actions, n - 1);
      DoomedStep(After(actions[..n - 1]), actions[n - 1], c);
      if !(actions[n - 1].Peek? && actions[n - 1].c == c) {
        DoomedSince(actions, n - 1, c);
      }
    }
  }

  /** Main theorem: in every interleaving, an eviction removes a record that was live when the
      get looked, or would have been, if and only if the last change of the key since that look
      stored one. */
  lemma EvictAmongOthers(actions: seq<Action>, n: nat)
    requires Interleaving(actions) && n < |actions| && actions[n].Evict?
    requires PcOf(After(actions[..n]), actions[n].c).Doomed? && PcOf(After(actions[..n]), actions[n].c).req.PlainGet?
    ensures var c, w := actions[n].c, After(actions[..n]);
            var k := PcOf(w, c).req.key;
            && LastPeek(actions, n, c).Some?
            && var m := LastPeek(actions, n, c).value;
               var now, last := actions[m].now, LastWrite(Changes(actions, m, n), k);
               Visible(Find(w.tree, k), now).Some? <==>
               last.Some? && last.value.1.Stored? && !IsExpired(last.value.1.expiresAt, now)
  {
    var c := actions[n].c;
    DoomedSince(actions, n, c);
    ChangesAt(actions, LastPeek(actions, n, c).value, n, PcOf(After(actions[..n]), c).req.key);
  }
}
