/**
 Prefix scans and index queries, against what a scan of the whole ordered tree would return.
 */
module Query {
  import opened Prelude
  import opened Ordered
  import opened Ast
  import opened Lexer
  import opened Parser
  import opened Printer
  import opened Registry
  import opened Store
  import opened Indexes
  import opened Server
  import opened IndexRuns

  function Filter(p: string -> bool, ks: seq<string>): seq<string> {
    if ks == [] then []
    else Filter(p, ks[..|ks| - 1]) + if p(ks[|ks| - 1]) then [ks[|ks| - 1]] else []
  }

  /** The records of the given keys, in that order, as far as they are visible. */
  function Report(t: Tree, now: nat, ks: seq<string>): seq<Record> {
    if ks == [] then []
    else
      var k := ks[|ks| - 1];
      Report(t, now, ks[..|ks| - 1]) +
      match Visible(Find(t, k), now) case Some(r) => [Record(k, r.value, r.expiresAt)] case None => []
  }

  lemma {:induction false} FilterMembers(p: string -> bool, ks: seq<string>)
    ensures forall k :: k in Filter(p, ks) <==> k in ks && p(k)
  {
    if ks != [] {
      FilterMembers(p, ks[..|ks| - 1]);
      assert ks == ks[..|ks| - 1] + [ks[|ks| - 1]];
    }
  }

  lemma {:induction false} FilterSorted(p: string -> bool, ks: seq<string>)
    requires Sorted(ks)
    ensures Sorted(Filter(p, ks))
  {
    if ks != [] {
      var last := |ks| - 1;
      FilterSorted(p, ks[..last]);
      FilterMembers(p, ks[..last]);
      var front := Filter(p, ks[..last]);
      forall i | 0 <= i < |front| ensures LexLt(front[i], ks[last]) {
        assert front[i] in ks[..last];
      }
    }
  }

  function Subset(ks: set<string>, p: string -> bool): set<string> {
    set k | k in ks && p(k)
  }

  /** Filtering an ordered scan gives the ordered scan of the filtered set. */
  lemma FilterInOrder(p: string -> bool, ks: set<string>)
    ensures Filter(p, InOrder(ks)) == InOrder(Subset(ks, p))
  {
    var all, some := InOrder(ks), Subset(ks, p);
    FilterMembers(p, all);
    FilterSorted(p, all);
    forall k ensures k in Filter(p, all) <==> k in InOrder(some) {
      assert k in all <==> k in ks;
      assert k in InOrder(some) <==> k in some;
    }
    SortedUnique(Filter(p, all), InOrder(some));
  }

  lemma {:induction false} FilterNone(p: string -> bool, ks: seq<string>)
    requires forall i :: 0 <= i < |ks| ==> !p(ks[i])
    ensures Filter(p, ks) == []
  {
    if ks != [] {
      FilterNone(p, ks[..|ks| - 1]);
    }
  }

  lemma {:induction false} FilterConcat(p: string -> bool, a: seq<string>, b: seq<string>)
    ensures Filter(p, a + b) == Filter(p, a) + Filter(p, b)
  {
    if b == [] {
      assert a + b == a;
    } else {
      FilterConcat(p, a, b[..|b| - 1]);
      assert (a + b)[..|a + b| - 1] == a + b[..|b| - 1];
    }
  }

  /** A report holds, for each visible key, its key, value and expiry, in the order of the keys. */
  lemma {:induction false} ReportExact(t: Tree, now: nat, ks: seq<string>)
    ensures forall r :: r in Report(t, now, ks) <==>
              r.key in ks && Visible(Find(t, r.key), now) == Some(Seen(r.value, r.expiresAt))
    ensures Sorted(ks) ==> forall i, j :: 0 <= i < j < |Report(t, now, ks)| ==>
              LexLt(Report(t, now, ks)[i].key, Report(t, now, ks)[j].key)
  {
    if ks != [] {
      var before, k := ks[..|ks| - 1], ks[|ks| - 1];
      ReportExact(t, now, before);
      assert ks == before + [k];
      if Sorted(ks) {
        assert forall x <- before :: LexLt(x, k);
        assert forall i :: 0 <= i < |Report(t, now, before)| ==> Report(t, now, before)[i] in Report(t, now, before);
      }
    }
  }

  // --- Prefix scan -----------------------------------------------------------------------------

  /** The keys a filtered prefix scan is to report. */
  function Selected(t: Tree, prefix: string, keep: Bytes -> bool): string -> bool {
    k => k in t && prefix <= k && keep(t[k].value)
  }

  /** Where the ordered iteration from the prefix on leaves the block of the prefix, nothing
      with that prefix follows. */
  lemma NothingAfterBlock(prefix: string, ks: seq<string>, i: nat)
    requires Sorted(ks) && i < |ks| && LexLe(prefix, ks[i]) && !(prefix <= ks[i])
    ensures forall j :: i <= j < |ks| ==> !(prefix <= ks[j])
  {
    forall j | i <= j < |ks| ensures !(prefix <= ks[j]) {
      if i < j && prefix <= ks[j] {
        PrefixBlock(prefix, ks[i], ks[j]);
      }
    }
  }

  function RangeFrom(t: Tree, prefix: string): set<string> {
    set k | k in t && LexLe(prefix, k)
  }

  /** The iteration that starts at the prefix selects as much as a scan of all keys. */
  lemma RangeSuffices(t: Tree, prefix: string, p: string -> bool)
    requires forall k :: p(k) ==> prefix <= k
    ensures Filter(p, InOrder(RangeFrom(t, prefix))) == Filter(p, InOrder(t.Keys))
  {
    var range := RangeFrom(t, prefix);
    FilterInOrder(p, range);
    FilterInOrder(p, t.Keys);
    forall k | k in t && p(k) ensures k in range { PrefixIsLower(prefix, k); }
    assert Subset(range, p) == Subset(t.Keys, p);
  }

  lemma FilterSnoc(p: string -> bool, ks: seq<string>, i: nat)
    requires i < |ks|
    ensures Filter(p, ks[..i + 1]) == Filter(p, ks[..i]) + if p(ks[i]) then [ks[i]] else []
  {
    assert ks[..i + 1][..i] == ks[..i];
  }

  lemma ReportSnoc(t: Tree, now: nat, ks: seq<string>, k: string)
    ensures Report(t, now, ks + [k]) == Report(t, now, ks) +
            match Visible(Find(t, k), now) case Some(r) => [Record(k, r.value, r.expiresAt)] case None => []
  {
    assert (ks + [k])[..|ks|] == ks;
  }

  lemma ScanStep(t: Tree, now: nat, p: string -> bool, ks: seq<string>, i: nat)
    requires i < |ks| && ks[i] in t
    ensures Report(t, now, Filter(p, ks[..i + 1])) == Report(t, now, Filter(p, ks[..i])) +
            if p(ks[i]) && !IsExpired(t[ks[i]].expiresAt, now)
            then [Record(ks[i], t[ks[i]].value, t[ks[i]].expiresAt)] else []
  {
    FilterSnoc(p, ks, i);
    var before := Filter(p, ks[..i]);
    if p(ks[i]) {
      ReportSnoc(t, now, before, ks[i]);
    } else {
      assert before + [] == before;
    }
  }

  lemma NothingMore(p: string -> bool, prefix: string, ks: seq<string>, i: nat)
    requires forall k :: p(k) ==> prefix <= k
    requires Sorted(ks) && i < |ks| && LexLe(prefix, ks[i]) && !(prefix <= ks[i])
    ensures Filter(p, ks) == Filter(p, ks[..i])
  {
    NothingAfterBlock(prefix, ks, i);
    FilterNone(p, ks[i..]);
    FilterConcat(p, ks[..i], ks[i..]);
    assert ks == ks[..i] + ks[i..];
  }

  /** The scan that starts at the prefix and stops at the first other key reports the same
      records in the same order as filtering the whole tree. */
  method PrefixScan(t: Tree, prefix: string, now: nat, keep: Bytes -> bool) returns (records: seq<Record>)
    ensures records == Report(t, now, Filter(Selected(t, prefix, keep), InOrder(t.Keys)))
  {
    ghost var p := Selected(t, prefix, keep);
    RangeSuffices(t, prefix, p);
    var ks := InOrder(RangeFrom(t, prefix));
    records := [];
    var i := 0;
    while i < |ks|
      invariant 0 <= i <= |ks|
      invariant records == Report(t, now, Filter(p, ks[..i]))
    {
      var k := ks[i];
      assert k in ks;
      if !(prefix <= k) {
        NothingMore(p, prefix, ks, i);
        return;
      }
      ScanStep(t, now, p, ks, i);
      if !IsExpired(t[k].expiresAt, now) {
        if keep(t[k].value) {
          records := records + [Record(k, t[k].value, t[k].expiresAt)];
        }
      }
      i := i + 1;
    }
    assert ks[..|ks|] == ks;
  }

  /** What such a scan reports: the visible records of all keys with the prefix whose values are
      to be kept, in key order. */
  lemma PrefixScanExact(t: Tree, prefix: string, now: nat, keep: Bytes -> bool)
    ensures var records := Report(t, now, Filter(Selected(t, prefix, keep), InOrder(t.Keys)));
            && (forall r :: r in records <==>
                  prefix <= r.key && keep(r.value) &&
                  Visible(Find(t, r.key), now) == Some(Seen(r.value, r.expiresAt)))
            && (forall i, j :: 0 <= i < j < |records| ==> LexLt(records[i].key, records[j].key))
  {
    var p := Selected(t, prefix, keep);
    FilterMembers(p, InOrder(t.Keys));
    FilterSorted(p, InOrder(t.Keys));
    ReportExact(t, now, Filter(p, InOrder(t.Keys)));
  }

  // --- Index queries ------------------------------------------------------------------------------

  function Page<T>(s: seq<T>, offset: nat, limit: nat): seq<T> {
    var from := if offset <= |s| then offset else |s|;
    var to := if from + limit <= |s| then from + limit else |s|;
    s[from..to]
  }

  /** Which key of the whole list has which place on a page: the first `offset` are skipped, and
      at most `limit` follow. */
  lemma PageExact<T>(s: seq<T>, offset: nat, limit: nat)
    ensures |Page(s, offset, limit)| ==
            if offset + limit <= |s| then limit else if offset <= |s| then |s| - offset else 0
    ensures forall i :: 0 <= i < |Page(s, offset, limit)| ==>
              offset + i < |s| && Page(s, offset, limit)[i] == s[offset + i]
  {
  }

  function IndexedSet(ix: Indexes, ik: string): set<string> {
    if ik in ix then ix[ik] else {}
  }

  /** Walks the page of the index set that the request asks for; the page is cut before
      missing and expired records are left out.  An absent limit is 100. */
  method Query(t: Tree, ix: Indexes, now: nat, typeName: string, field: string, value: string,
               offset: Option<nat>, limit: Option<nat>) returns (records: seq<Record>)
    ensures var page := Page(InOrder(IndexedSet(ix, IndexKey(typeName, field, value))),
                             if offset.Some? then offset.value else 0, if limit.Some? then limit.value else 100);
            records == Report(t, now, page)
  {
    var idxKey := IndexKey(typeName, field, value);
    records := [];
    if idxKey in ix {
      var from := if offset.Some? then offset.value else 0;
      var count := if limit.Some? then limit.value else 100;
      var page := Page(InOrder(ix[idxKey]), from, count);
      for i := 0 to |page|
        invariant records == Report(t, now, page[..i])
      {
        var k := page[i];
        ReportSnoc(t, now, page[..i], k);
        assert page[..i + 1] == page[..i] + [k];
        if k in t && !IsExpired(t[k].expiresAt, now) {
          records := records + [Record(k, t[k].value, t[k].expiresAt)];
        }
      }
      assert page[..|page|] == page;
    }
  }

  predicate NoColon(s: string) {
    ':' !in s
  }

  /** What comes before the first colon is determined. */
  lemma {:induction false} PrefixBeforeColon(a: string, x: string)
    requires NoColon(a)
    ensures TypePrefix(a + (":" + x)) == a
  {
    if a != [] {
      assert a[0] in a && forall c <- a[1..] :: c in a;
      PrefixBeforeColon(a[1..], x);
      assert (a + (":" + x))[1..] == a[1..] + (":" + x);
    }
  }

  lemma SplitAtColon(a: string, x: string, b: string, y: string)
    requires NoColon(a) && NoColon(b) && a + (":" + x) == b + (":" + y)
    ensures a == b && x == y
  {
    PrefixBeforeColon(a, x);
    PrefixBeforeColon(b, y);
    assert (a + (":" + x))[|a| + 1..] == x && (b + (":" + y))[|b| + 1..] == y;
  }

  lemma IndexKeyInjective(t: string, f: string, v: string, t': string, f': string, v': string)
    requires NoColon(t) && NoColon(f) && NoColon(t') && NoColon(f')
    requires IndexKey(t, f, v) == IndexKey(t', f', v')
    ensures t == t' && f == f' && v == v'
  {
    SplitAtColon(t, f + (":" + v), t', f' + (":" + v'));
    SplitAtColon(f, v, f', v');
  }

  lemma NameHasNoColon(w: string)
    requires IsName(w)
    ensures NoColon(w)
  {
    assert !IsWordChar(':');
  }

  /** A value is rendered as it is asked for. */
  lemma RenderedAsAsked(v: Json, text: string)
    ensures Rendered(v) == Some(text) <==> AskedAs(v, text)
  {
  }

  /** The part of a key before its first colon, or the whole key if it has none. */
  predicate HeadOf(key: string, p: string) {
    NoColon(p) && (key == p || p + ":" <= key)
  }

  lemma {:induction false} TypePrefixExact(key: string, p: string)
    ensures HeadOf(key, p) <==> p == TypePrefix(key)
  {
    if key != [] && key[0] != ':' {
      TypePrefixExact(key[1..], TypePrefix(key)[1..]);
      var q := TypePrefix(key[1..]);
      TypePrefixExact(key[1..], q);
      assert key == [key[0]] + key[1..] && TypePrefix(key) == [key[0]] + q;
      assert ([key[0]] + q) + ":" == [key[0]] + (q + ":");
      if HeadOf(key, p) && p != [] {
        assert p == [key[0]] + p[1..] && (p + ":")[1..] == p[1..] + ":";
        TypePrefixExact(key[1..], p[1..]);
      }
    }
  }

  lemma {:induction false} FieldKeysAre(typeName: string, fields: seq<FieldDefinition>, members: map<string, Json>,
                                        ik: string)
    ensures ik in FieldKeys(typeName, fields, members) <==>
            exists f <- fields :: f.name in members && Rendered(members[f.name]).Some? &&
                                  ik == IndexKey(typeName, f.name, Rendered(members[f.name]).value)
  {
    if fields != [] {
      FieldKeysAre(typeName, fields[1..], members, ik);
      assert fields == [fields[0]] + fields[1..];
    }
  }

  /** A record is filed under `type:field:value` exactly when a full scan would report it for
      that type, field and value. */
  lemma ExtractsIffMatches(reg: Registry, parse: Bytes -> Option<Json>, key: string, val: Bytes,
                           typeName: string, field: string, value: string)
    requires Named(reg) && NoColon(typeName) && NoColon(field)
    ensures IndexKey(typeName, field, value) in ExtractKeys(reg, parse, key, val) <==>
            Matches(reg, parse, key, val, typeName, field, value)
  {
    var prefix := TypePrefix(key);
    if prefix in reg.prefixMap && reg.prefixMap[prefix] in reg.types && parse(val).Some? && parse(val).value.JObject? {
      var name, members := reg.prefixMap[prefix], parse(val).value.members;
      var all := reg.types[name].fields;
      OnlyIndexedMembers(all);
      FieldKeysAre(name, OnlyIndexed(all), members, IndexKey(typeName, field, value));
      NameHasNoColon(name);
      forall f <- all | f.name in members && Rendered(members[f.name]).Some? &&
                        IndexKey(name, f.name, Rendered(members[f.name]).value) == IndexKey(typeName, field, value)
        ensures name == typeName && f.name == field && Rendered(members[f.name]).value == value
      {
        NameHasNoColon(f.name);
        IndexKeyInjective(name, f.name, Rendered(members[f.name]).value, typeName, field, value);
      }
      if field in members {
        RenderedAsAsked(members[field], value);
      }
    }
  }

  /** The keys of the tree that a full scan would match, expired or not. */
  function Matching(reg: Registry, parse: Bytes -> Option<Json>, t: Tree,
                    typeName: string, field: string, value: string): set<string> {
    set k | k in t && Matches(reg, parse, k, t[k].value, typeName, field, value)
  }

  function SchemaConfig(reg: Registry, parse: Bytes -> Option<Json>, capacity: nat): Config {
    Config((k, v) => ExtractKeys(reg, parse, k, v), capacity)
  }

  /** Main theorem: under exact indexes, for colon-free type and field names, the index set is
      the set of records that a full scan would match. */
  lemma IndexIsScan(reg: Registry, parse: Bytes -> Option<Json>, capacity: nat, t: Tree, ix: Indexes,
                    typeName: string, field: string, value: string)
    requires Named(reg) && NoColon(typeName) && NoColon(field)
    requires Exact(SchemaConfig(reg, parse, capacity), t, ix)
    ensures IndexedSet(ix, IndexKey(typeName, field, value)) == Matching(reg, parse, t, typeName, field, value)
  {
    var ik := IndexKey(typeName, field, value);
    forall k ensures k in IndexedSet(ix, ik) <==> k in Matching(reg, parse, t, typeName, field, value) {
      assert InIndex(ix, ik, k) <==> Files(SchemaConfig(reg, parse, capacity), t, ik, k);
      if k in t {
        ExtractsIffMatches(reg, parse, k, t[k].value, typeName, field, value);
      }
    }
  }

  /** The keys that a full scan of a tree would match, as a filter. */
  function Matcher(reg: Registry, parse: Bytes -> Option<Json>, t: Tree,
                   typeName: string, field: string, value: string): string -> bool {
    k => k in t && Matches(reg, parse, k, t[k].value, typeName, field, value)
  }

  /** So a query whose page covers the set reports exactly the visible matches, in key order. */
  lemma QueryIsFullScan(reg: Registry, parse: Bytes -> Option<Json>, capacity: nat, t: Tree, ix: Indexes, now: nat,
                        typeName: string, field: string, value: string, limit: nat)
    requires Named(reg) && NoColon(typeName) && NoColon(field)
    requires Exact(SchemaConfig(reg, parse, capacity), t, ix)
    requires limit >= |Matching(reg, parse, t, typeName, field, value)|
    ensures Report(t, now, Page(InOrder(IndexedSet(ix, IndexKey(typeName, field, value))), 0, limit)) ==
            Report(t, now, Filter(Matcher(reg, parse, t, typeName, field, value), InOrder(t.Keys)))
  {
    IndexIsScan(reg, parse, capacity, t, ix, typeName, field, value);
    var matcher := Matcher(reg, parse, t, typeName, field, value);
    FilterInOrder(matcher, t.Keys);
    SubsetMatching(reg, parse, t, typeName, field, value);
    WholePage(InOrder(Matching(reg, parse, t, typeName, field, value)), limit);
  }

  lemma SubsetMatching(reg: Registry, parse: Bytes -> Option<Json>, t: Tree,
                       typeName: string, field: string, value: string)
    ensures Subset(t.Keys, Matcher(reg, parse, t, typeName, field, value)) ==
            Matching(reg, parse, t, typeName, field, value)
  {
  }

  lemma WholePage<T>(s: seq<T>, limit: nat)
    requires limit >= |s|
    ensures Page(s, 0, limit) == s
  {
  }

  /** Over whole runs and from the schema text on: whatever text the registry was loaded from,
      after every run that leaves no stale index entry, a query whose page covers the matches
      reports what a scan of the whole tree would. */
  lemma QueryAfterRun(text: string, parse: Bytes -> Option<Json>, capacity: nat, evs: seq<Event>, now: nat,
                      typeName: string, field: string, value: string, limit: nat)
    requires ParseText(text).Ok? && NoColon(typeName) && NoColon(field)
    requires NeverStale(SchemaConfig(LoadNodes(EMPTY, ParseText(text).value), parse, capacity), evs)
    ensures var reg := LoadNodes(EMPTY, ParseText(text).value);
            var s := Run(SchemaConfig(reg, parse, capacity), FRESH, evs);
            limit >= |Matching(reg, parse, s.tree, typeName, field, value)| ==>
              Report(s.tree, now, Page(InOrder(IndexedSet(s.indexes, IndexKey(typeName, field, value))), 0, limit)) ==
              Report(s.tree, now, Filter(Matcher(reg, parse, s.tree, typeName, field, value), InOrder(s.tree.Keys)))
  {
    var reg := LoadNodes(EMPTY, ParseText(text).value);
    ParsedIsWf(text, ParseText(text).value);
    LoadKeepsNamed(EMPTY, ParseText(text).value);
    var c := SchemaConfig(reg, parse, capacity);
    ExactUpTo(c, evs, |evs|);
    assert evs[..|evs|] == evs;
    var s := Run(c, FRESH, evs);
    if limit >= |Matching(reg, parse, s.tree, typeName, field, value)| {
      QueryIsFullScan(reg, parse, capacity, s.tree, s.indexes, now, typeName, field, value, limit);
    }
  }

  /** A colon in the requested type shifts the boundaries: the query then finds the records of
      another type, field and value, although no type or field with such a name exists. */
  lemma ColonShiftsQuery(t: string, f: string, v: string, w: string)
    ensures IndexKey(t + ":" + f, v, w) == IndexKey(t, f, v + ":" + w)
  {
  }

  /** Nothing validates what is written: a value that its type rejects is stored and read back. */
  lemma InvalidWriteAccepted(reg: Registry, parse: Bytes -> Option<Json>, capacity: nat, evs: seq<Event>,
                             now: nat, key: string, v: Bytes)
    requires TypePrefix(key) in reg.prefixMap && parse(v).Some?
    requires Validate(reg, reg.prefixMap[TypePrefix(key)], parse(v).value).Err?
    ensures var c := SchemaConfig(reg, parse, capacity);
            var s := Run(c, FRESH, evs + [At(now, OpPut(key, v, None))]);
            Visible(Find(s.tree, key), now) == Some(Seen(v, None))
  {
    var evs' := evs + [At(now, OpPut(key, v, None))];
    assert evs'[..|evs|] == evs;
  }

  /** Such values exist for every type: no type accepts null. */
  lemma NullRejected(reg: Registry, typeName: string)
    ensures Validate(reg, typeName, JNull).Err?
  {
  }
}
