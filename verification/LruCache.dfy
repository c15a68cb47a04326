/**
 The least-recently-used cache: a doubly linked list threaded through a slab of nodes,
 with a stack of free slots and a map from keys to slots.  Every operation refines the
 recency sequence of `LruSpec`.
 */
module LruCache {
  import opened Prelude
  import Spec = LruSpec

  datatype Node<K, V> = Node(key: K, value: V, prev: Option<nat>, next: Option<nat>)

  function First(order: seq<nat>): Option<nat> {
    if order == [] then None else Some(order[0])
  }

  function Last(order: seq<nat>): Option<nat> {
    if order == [] then None else Some(order[|order| - 1])
  }

  ghost function Members(order: seq<nat>): set<nat> {
    set x | x in order
  }

  lemma MembersTail(order: seq<nat>)
    requires order != []
    ensures Members(order) == {order[0]} + Members(order[1..])
  {
    assert order == [order[0]] + order[1..];
  }

  // --- The linked list ----------------------------------------------------------------

  /** Following `next` from the first slot visits `order`, without repetition, and each
      `prev` points back to the slot visited before. */
  ghost predicate Chain<K, V>(nodes: seq<Node<K, V>>, prev: Option<nat>, order: seq<nat>)
    decreases |order|
  {
    order == [] ||
    (var x, rest := order[0], order[1..];
     x < |nodes| && x !in rest && nodes[x].prev == prev && nodes[x].next == First(rest) && Chain(nodes, Some(x), rest))
  }

  /** The same links on the given slots. */
  ghost predicate SameLinks<K, V>(nodes: seq<Node<K, V>>, nodes': seq<Node<K, V>>, xs: set<nat>) {
    forall x <- xs :: x < |nodes| && x < |nodes'| && nodes'[x].prev == nodes[x].prev && nodes'[x].next == nodes[x].next
  }

  lemma {:induction false} ChainFrame<K, V>(nodes: seq<Node<K, V>>, nodes': seq<Node<K, V>>, prev: Option<nat>,
                                            order: seq<nat>)
    requires Chain(nodes, prev, order) && SameLinks(nodes, nodes', Members(order))
    ensures Chain(nodes', prev, order)
    decreases |order|
  {
    if order != [] {
      MembersTail(order);
      ChainFrame(nodes, nodes', Some(order[0]), order[1..]);
    }
  }

  lemma {:induction false} ChainAt<K, V>(nodes: seq<Node<K, V>>, prev: Option<nat>, order: seq<nat>, i: nat)
    requires Chain(nodes, prev, order) && i < |order|
    ensures order[i] < |nodes| && order[i] !in order[..i] && order[i] !in order[i + 1..]
    ensures nodes[order[i]].prev == if i == 0 then prev else Some(order[i - 1])
    ensures nodes[order[i]].next == First(order[i + 1..])
    decreases |order|
  {
    if i > 0 {
      ChainAt(nodes, Some(order[0]), order[1..], i - 1);
      assert order[1..][i..] == order[i + 1..];
      assert order[..i] == [order[0]] + order[1..][..i - 1];
    }
  }

  lemma ChainDistinct<K, V>(nodes: seq<Node<K, V>>, prev: Option<nat>, order: seq<nat>)
    requires Chain(nodes, prev, order)
    ensures Distinct(order)
    ensures forall i :: 0 <= i < |order| ==> order[i] < |nodes|
  {
    forall i, j | 0 <= i < j < |order| ensures order[i] != order[j] {
      ChainAt(nodes, prev, order, j);
      assert order[..j][i] == order[i];
    }
    forall i | 0 <= i < |order| ensures order[i] < |nodes| { ChainAt(nodes, prev, order, i); }
  }

  /** `next` and `prev` are mutually inverse along the list. */
  lemma {:induction false} ChainInverse<K, V>(nodes: seq<Node<K, V>>, order: seq<nat>, x: nat, y: nat)
    requires Chain(nodes, None, order) && x in order && y in order
    ensures x < |nodes| && y < |nodes|
    ensures nodes[x].next == Some(y) <==> nodes[y].prev == Some(x)
  {
    var i :| 0 <= i < |order| && order[i] == x;
    var j :| 0 <= j < |order| && order[j] == y;
    ChainAt(nodes, None, order, i);
    ChainAt(nodes, None, order, j);
    ChainDistinct(nodes, None, order);
  }

  ghost function Removed(order: seq<nat>, i: nat): seq<nat>
    requires i < |order|
  {
    order[..i] + order[i + 1..]
  }

  lemma RemovedEnds(order: seq<nat>, i: nat)
    requires i < |order|
    ensures First(Removed(order, i)) == if i == 0 then First(order[1..]) else First(order)
    ensures Last(Removed(order, i)) ==
            if i < |order| - 1 then Last(order) else if i == 0 then None else Some(order[i - 1])
  {
  }

  lemma RemovedMembers<K, V>(nodes: seq<Node<K, V>>, order: seq<nat>, i: nat)
    requires Chain(nodes, None, order) && i < |order|
    ensures Members(Removed(order, i)) == Members(order) - {order[i]}
  {
    ChainDistinct(nodes, None, order);
    forall x ensures x in Removed(order, i) <==> x in order && x != order[i] {
      if x in order && x != order[i] {
        var a :| 0 <= a < |order| && order[a] == x;
        assert Removed(order, i)[if a < i then a else a - 1] == x;
      }
    }
  }

  /** Every link to slot `idx` is redirected to what `idx` itself links to. */
  ghost predicate Bypassed<K, V>(nodes: seq<Node<K, V>>, nodes': seq<Node<K, V>>, xs: set<nat>, idx: nat)
    requires idx < |nodes|
  {
    forall x <- xs :: x != idx ==>
      && x < |nodes| && x < |nodes'|
      && nodes'[x].next == (if nodes[x].next == Some(idx) then nodes[idx].next else nodes[x].next)
      && nodes'[x].prev == (if nodes[x].prev == Some(idx) then nodes[idx].prev else nodes[x].prev)
  }

  lemma NeighboursInSlab<K, V>(nodes: seq<Node<K, V>>, order: seq<nat>, i: nat)
    requires Chain(nodes, None, order) && i < |order|
    ensures LinksInSlab(nodes, order[i])
  {
    ChainAt(nodes, None, order, i);
    ChainDistinct(nodes, None, order);
  }

  ghost predicate LinksInSlab<K, V>(nodes: seq<Node<K, V>>, idx: nat) {
    && idx < |nodes|
    && (nodes[idx].prev.Some? ==> nodes[idx].prev.value < |nodes| && nodes[idx].prev.value != idx)
    && (nodes[idx].next.Some? ==> nodes[idx].next.value < |nodes| && nodes[idx].next.value != idx)
  }

  /** The nodes after the two neighbours of a slot are linked to each other. */
  ghost function Patched<K, V>(nodes: seq<Node<K, V>>, idx: nat): seq<Node<K, V>>
    requires LinksInSlab(nodes, idx)
  {
    var prev, next := nodes[idx].prev, nodes[idx].next;
    var a := if prev.Some? then nodes[prev.value := nodes[prev.value].(next := next)] else nodes;
    var b := if next.Some? then a[next.value := a[next.value].(prev := prev)] else a;
    b[idx := b[idx].(prev := None, next := None)]
  }

  lemma PatchedPayload<K, V>(nodes: seq<Node<K, V>>, idx: nat)
    requires LinksInSlab(nodes, idx)
    ensures SamePayload(Patched(nodes, idx), nodes)
  {
  }

  /** Patching the two neighbours redirects every link to the slot between them. */
  lemma PatchedBypasses<K, V>(nodes: seq<Node<K, V>>, order: seq<nat>, i: nat)
    requires Chain(nodes, None, order) && i < |order| && LinksInSlab(nodes, order[i])
    ensures Bypassed(nodes, Patched(nodes, order[i]), Members(order), order[i])
  {
    forall x <- Members(order) | x != order[i]
      ensures x < |nodes|
      ensures nodes[x].next == Some(order[i]) <==> nodes[order[i]].prev == Some(x)
      ensures nodes[x].prev == Some(order[i]) <==> nodes[order[i]].next == Some(x)
    {
      ChainInverse(nodes, order, x, order[i]);
      ChainInverse(nodes, order, order[i], x);
    }
  }

  lemma {:induction false} ChainBypass<K, V>(nodes: seq<Node<K, V>>, nodes': seq<Node<K, V>>, prev: Option<nat>,
                                             order: seq<nat>, i: nat)
    requires Chain(nodes, prev, order) && i < |order| && prev != Some(order[i])
    requires order[i] < |nodes| && Bypassed(nodes, nodes', Members(order), order[i])
    ensures Chain(nodes', prev, Removed(order, i))
    decreases |order|
  {
    var x, rest := order[0], order[1..];
    MembersTail(order);
    if i == 0 {
      assert Removed(order, 0) == rest;
      if rest != [] {
        var y, rest' := rest[0], rest[1..];
        MembersTail(rest);
        assert First(rest') != Some(x);
        ChainNoBackLink(nodes, Some(y), rest', x);
        ChainFrame(nodes, nodes', Some(y), rest');
      }
    } else {
      ChainBypass(nodes, nodes', Some(x), rest, i - 1);
      assert Removed(order, i) == [x] + Removed(rest, i - 1);
      ChainAt(nodes, prev, order, i);
      assert rest[0] == order[1];
      assert x in Members(order);
      assert x !in Removed(rest, i - 1);
      if i == 1 {
        assert Removed(rest, 0) == order[2..];
      } else {
        assert rest[0] != order[i] by { ChainDistinct(nodes, prev, order); }
        assert Removed(rest, i - 1)[0] == rest[0];
      }
    }
  }

  lemma {:induction false} ChainNoBackLink<K, V>(nodes: seq<Node<K, V>>, prev: Option<nat>, order: seq<nat>, x: nat)
    requires Chain(nodes, prev, order) && x !in order && prev != Some(x)
    ensures forall y <- order :: y < |nodes| && nodes[y].prev != Some(x) && nodes[y].next != Some(x)
    decreases |order|
  {
    if order != [] {
      ChainNoBackLink(nodes, Some(order[0]), order[1..], x);
      forall y <- order ensures y < |nodes| && nodes[y].prev != Some(x) && nodes[y].next != Some(x) {
        if y != order[0] { assert y in order[1..]; }
      }
    }
  }

  // --- Payload ------------------------------------------------------------------------

  /** The same keys and values in the same slots; only links may differ. */
  ghost predicate SamePayload<K, V>(a: seq<Node<K, V>>, b: seq<Node<K, V>>) {
    |a| == |b| && forall i :: 0 <= i < |a| ==> a[i].key == b[i].key && a[i].value == b[i].value
  }

  ghost predicate Within(order: seq<nat>, n: nat) {
    order == [] || (order[0] < n && Within(order[1..], n))
  }

  lemma {:induction false} MembersWithin(order: seq<nat>, n: nat)
    requires Within(order, n)
    ensures forall x <- Members(order) :: x < n
  {
    if order != [] {
      MembersWithin(order[1..], n);
      MembersTail(order);
    }
  }

  lemma {:induction false} ChainWithin<K, V>(nodes: seq<Node<K, V>>, prev: Option<nat>, order: seq<nat>)
    requires Chain(nodes, prev, order)
    ensures Within(order, |nodes|)
    decreases |order|
  {
    if order != [] {
      ChainWithin(nodes, Some(order[0]), order[1..]);
    }
  }

  /** The entries along the list. */
  ghost function EntriesOf<K, V>(nodes: seq<Node<K, V>>, order: seq<nat>): (r: seq<Spec.Entry<K, V>>)
    requires Within(order, |nodes|)
    ensures |r| == |order|
  {
    if order == [] then []
    else [Spec.Entry(nodes[order[0]].key, nodes[order[0]].value)] + EntriesOf(nodes, order[1..])
  }

  lemma {:induction false} EntriesAt<K, V>(nodes: seq<Node<K, V>>, order: seq<nat>, i: nat)
    requires Within(order, |nodes|) && i < |order|
    ensures order[i] < |nodes|
    ensures EntriesOf(nodes, order)[i] == Spec.Entry(nodes[order[i]].key, nodes[order[i]].value)
  {
    if i > 0 {
      EntriesAt(nodes, order[1..], i - 1);
    }
  }

  lemma {:induction false} EntriesFrame<K, V>(nodes: seq<Node<K, V>>, nodes': seq<Node<K, V>>, order: seq<nat>)
    requires Within(order, |nodes|) && Within(order, |nodes'|)
    requires forall x <- Members(order) :: x < |nodes| && x < |nodes'| ==>
               nodes[x].key == nodes'[x].key && nodes[x].value == nodes'[x].value
    ensures EntriesOf(nodes, order) == EntriesOf(nodes', order)
  {
    if order != [] {
      MembersTail(order);
      EntriesFrame(nodes, nodes', order[1..]);
    }
  }

  lemma {:induction false} EntriesRemoved<K, V>(nodes: seq<Node<K, V>>, order: seq<nat>, i: nat)
    requires Within(order, |nodes|) && i < |order|
    ensures Within(Removed(order, i), |nodes|)
    ensures var e := EntriesOf(nodes, order);
            EntriesOf(nodes, Removed(order, i)) == e[..i] + e[i + 1..]
  {
    var e, x, rest := EntriesOf(nodes, order), order[0], order[1..];
    if i == 0 {
      assert Removed(order, 0) == rest;
    } else {
      EntriesRemoved(nodes, rest, i - 1);
      assert Removed(order, i) == [x] + Removed(rest, i - 1);
      assert e[..i] + e[i + 1..] == [e[0]] + (e[1..][..i - 1] + e[1..][i..]);
    }
  }

  lemma {:induction false} EntriesOverwritten<K, V>(nodes: seq<Node<K, V>>, order: seq<nat>, i: nat, node: Node<K, V>)
    requires Within(order, |nodes|) && i < |order| && Distinct(order)
    ensures order[i] < |nodes|
    ensures EntriesOf(nodes[order[i] := node], order) == EntriesOf(nodes, order)[i := Spec.Entry(node.key, node.value)]
  {
    EntriesAt(nodes, order, i);
    forall j | 0 <= j < |order| ensures EntriesOf(nodes[order[i] := node], order)[j] ==
        if j == i then Spec.Entry(node.key, node.value) else EntriesOf(nodes, order)[j]
    {
      EntriesAt(nodes, order, j);
      EntriesAt(nodes[order[i] := node], order, j);
    }
  }

  // --- The key map and the free list ------------------------------------------------

  /** Each live slot is filed under its key, and under no other. */
  ghost predicate Filed<K, V>(nodes: seq<Node<K, V>>, slots: map<K, nat>, live: set<nat>) {
    && (forall x <- live :: x < |nodes| && nodes[x].key in slots && slots[nodes[x].key] == x)
    && (forall k <- slots :: slots[k] in live && nodes[slots[k]].key == k)
  }

  ghost function Slab(n: nat): set<nat> {
    if n == 0 then {} else Slab(n - 1) + {n - 1}
  }

  lemma {:induction false} SlabMember(n: nat, x: nat)
    ensures x in Slab(n) <==> x < n
  {
    if n > 0 {
      SlabMember(n - 1, x);
    }
  }

  /** Every slot of a slab of `n` nodes is either live or free, never both. */
  ghost predicate Partitioned(n: nat, freeList: seq<nat>, live: set<nat>) {
    Distinct(freeList) && Members(freeList) !! live && Members(freeList) + live == Slab(n)
  }

  lemma FiledDistinctKeys<K, V>(nodes: seq<Node<K, V>>, slots: map<K, nat>, order: seq<nat>)
    requires Filed(nodes, slots, Members(order)) && Distinct(order) && Within(order, |nodes|)
    ensures Spec.DistinctKeys(EntriesOf(nodes, order))
  {
    forall i, j | 0 <= i < j < |order| ensures EntriesOf(nodes, order)[i].key != EntriesOf(nodes, order)[j].key {
      EntriesAt(nodes, order, i);
      EntriesAt(nodes, order, j);
      assert order[i] in Members(order) && order[j] in Members(order);
    }
  }

  lemma FiledWithout<K, V>(nodes: seq<Node<K, V>>, slots: map<K, nat>, live: set<nat>, idx: nat)
    requires Filed(nodes, slots, live) && idx in live
    ensures idx < |nodes| && Filed(nodes, slots - {nodes[idx].key}, live - {idx})
    ensures |slots - {nodes[idx].key}| == |slots| - 1
  {
    var k := nodes[idx].key;
    assert (slots - {k}).Keys == slots.Keys - {k};
  }

  lemma FiledFrame<K, V>(nodes: seq<Node<K, V>>, nodes': seq<Node<K, V>>, slots: map<K, nat>, live: set<nat>)
    requires Filed(nodes, slots, live)
    requires |nodes| <= |nodes'| && forall x <- live :: nodes'[x].key == nodes[x].key
    ensures Filed(nodes', slots, live)
  {
  }

  lemma FiledInsert<K, V>(nodes: seq<Node<K, V>>, slots: map<K, nat>, live: set<nat>, idx: nat)
    requires Filed(nodes, slots, live)
    requires idx < |nodes| && idx !in live && nodes[idx].key !in slots
    ensures Filed(nodes, slots[nodes[idx].key := idx], live + {idx})
  {
  }

  lemma PartitionedFreed(n: nat, freeList: seq<nat>, live: set<nat>, idx: nat)
    requires Partitioned(n, freeList, live) && idx in live
    ensures Partitioned(n, freeList + [idx], live - {idx})
  {
    assert Members(freeList + [idx]) == Members(freeList) + {idx};
  }

  /** Popping a free slot, or growing the slab by one, yields a slot outside the list. */
  lemma PartitionedTaken(n: nat, freeList: seq<nat>, live: set<nat>)
    requires Partitioned(n, freeList, live)
    ensures freeList != [] ==>
              var last := |freeList| - 1;
              freeList[last] < n && freeList[last] !in live && Partitioned(n, freeList[..last], live + {freeList[last]})
    ensures freeList == [] ==> n !in live && Partitioned(n + 1, [], live + {n})
  {
    if freeList != [] {
      var last := |freeList| - 1;
      assert freeList == freeList[..last] + [freeList[last]];
      assert Members(freeList) == Members(freeList[..last]) + {freeList[last]};
      assert freeList[last] in Members(freeList);
      SlabMember(n, freeList[last]);
    } else {
      SlabMember(n, n);
      assert live == Slab(n) && Members(freeList) == {};
    }
  }

  /** Storing a node outside the list leaves list and entries alone and can be filed. */
  lemma StoredFrame<K, V>(nodes: seq<Node<K, V>>, nodes': seq<Node<K, V>>, slots: map<K, nat>, order: seq<nat>,
                          idx: nat)
    requires Chain(nodes, None, order) && Within(order, |nodes|) && Filed(nodes, slots, Members(order))
    requires |nodes| <= |nodes'| && forall x <- Members(order) :: x < |nodes| && nodes'[x] == nodes[x]
    requires idx < |nodes'| && idx !in Members(order) && nodes'[idx].key !in slots
    ensures Chain(nodes', None, order) && Within(order, |nodes'|)
    ensures EntriesOf(nodes', order) == EntriesOf(nodes, order)
    ensures Filed(nodes', slots[nodes'[idx].key := idx], Members(order) + {idx})
    ensures |slots[nodes'[idx].key := idx]| == |slots| + 1
  {
    ChainFrame(nodes, nodes', None, order);
    ChainWithin(nodes', None, order);
    EntriesFrame(nodes, nodes', order);
    FiledFrame(nodes, nodes', slots, Members(order));
    FiledInsert(nodes', slots, Members(order), idx);
  }

  /** Linking an outside slot in front of a chain. */
  lemma ChainCons<K, V>(nodes: seq<Node<K, V>>, nodes': seq<Node<K, V>>, order: seq<nat>, idx: nat)
    requires Chain(nodes, None, order) && idx < |nodes| == |nodes'| && idx !in Members(order)
    requires nodes'[idx].prev == None && nodes'[idx].next == First(order)
    requires forall x <- Members(order) :: x < |nodes| && nodes'[x].next == nodes[x].next &&
               nodes'[x].prev == if First(order) == Some(x) then Some(idx) else nodes[x].prev
    ensures Chain(nodes', None, [idx] + order)
  {
    assert ([idx] + order)[1..] == order;
    if order != [] {
      MembersTail(order);
      assert order[0] !in Members(order[1..]);
      ChainFrame(nodes, nodes', Some(order[0]), order[1..]);
    }
  }

  class LruCache<K(==), V> {
    const capacity: nat
    var slots: map<K, nat>
    var nodes: seq<Node<K, V>>
    var freeList: seq<nat>
    var head: Option<nat>
    var tail: Option<nat>
    ghost var order: seq<nat>  // the linked slots, from head to tail
    ghost var live: set<nat>   // the same slots as a set

    /** `head` and `tail` delimit the list. */
    ghost predicate Linked()
      reads this
    {
      && Chain(nodes, None, order) && Within(order, |nodes|) && live == Members(order)
      && head == First(order) && tail == Last(order)
    }

    ghost predicate Valid()
      reads this
    {
      && 0 < capacity
      && Linked()
      && Filed(nodes, slots, live)
      && Partitioned(|nodes|, freeList, live)
      && |slots| == |order|
      && |order| + |freeList| == |nodes| <= capacity
    }

    /** The abstract value: entries from most to least recently used. */
    ghost function Entries(): (r: seq<Spec.Entry<K, V>>)
      requires Valid()
      reads this
      ensures Spec.DistinctKeys(r) && |r| == |slots| == |order| <= capacity
    {
      ChainDistinct(nodes, None, order);
      FiledDistinctKeys(nodes, slots, order);
      EntriesOf(nodes, order)
    }

    constructor (capacity: nat)
      requires capacity > 0
      ensures Valid() && Entries() == [] && this.capacity == capacity
    {
      this.capacity := capacity;
      slots := map[];
      nodes, freeList := [], [];
      order, live := [], {};
      head, tail := None, None;
    }

    /** Unlinks the slot at position `i` of the list. */
    method RemoveNode(idx: nat, ghost i: nat)
      requires Linked()
      requires i < |order| && order[i] == idx
      modifies this`nodes, this`head, this`tail, this`order, this`live
      ensures order == Removed(old(order), i) && live == old(live) - {idx}
      ensures Linked()
      ensures SamePayload(nodes, old(nodes))
    {
      ChainAt(nodes, None, order, i);
      NeighboursInSlab(nodes, order, i);
      RemovedEnds(order, i);
      var prev := nodes[idx].prev;
      var next := nodes[idx].next;
      match prev {
        case Some(p) => nodes := nodes[p := nodes[p].(next := next)];
        case None => head := next;
      }
      match next {
        case Some(n) => nodes := nodes[n := nodes[n].(prev := prev)];
        case None => tail := prev;
      }
      nodes := nodes[idx := nodes[idx].(prev := None, next := None)];
      assert nodes == Patched(old(nodes), idx);
      PatchedPayload(old(nodes), idx);
      PatchedBypasses(old(nodes), order, i);
      ChainBypass(old(nodes), nodes, None, order, i);
      RemovedMembers(old(nodes), order, i);
      order, live := Removed(order, i), live - {idx};
      ChainWithin(nodes, None, order);
    }

    /** Links an unlinked slot in front of the list. */
    method LinkFront(idx: nat)
      requires Linked()
      requires idx < |nodes| && idx !in live
      modifies this`nodes, this`head, this`tail, this`order, this`live
      ensures order == [idx] + old(order) && live == old(live) + {idx}
      ensures Linked()
      ensures SamePayload(nodes, old(nodes))
    {
      var oldHead := head;
      nodes := nodes[idx := nodes[idx].(next := oldHead, prev := None)];
      if oldHead.Some? {
        nodes := nodes[oldHead.value := nodes[oldHead.value].(prev := Some(idx))];
      }
      MembersWithin(order, |nodes|);
      ChainCons(old(nodes), nodes, order, idx);
      head := Some(idx);
      if tail.None? {
        tail := Some(idx);
      }
      order, live := [idx] + order, live + {idx};
      assert order[1..] == old(order);
      MembersTail(order);
      ChainWithin(nodes, None, order);
    }

    /** Makes a linked slot the first one. */
    method MoveToFront(idx: nat, ghost i: nat)
      requires Valid()
      requires i < |order| && order[i] == idx
      modifies this`nodes, this`head, this`tail, this`order, this`live
      ensures Valid() && idx < |nodes| && idx < |old(nodes)| && nodes[idx].value == old(nodes)[idx].value
      ensures Entries() == [old(Entries())[i]] + (old(Entries())[..i] + old(Entries())[i + 1..])
    {
      EntriesAt(nodes, order, i);
      if head == Some(idx) {
        assert i == 0 by { ChainDistinct(nodes, None, order); }
        assert Entries() == [Entries()[0]] + (Entries()[..0] + Entries()[1..]);
        return;
      }
      EntriesRemoved(nodes, order, i);
      RemoveNode(idx, i);
      LinkFront(idx);
      assert live == old(live);
      EntriesFrame(old(nodes), nodes, order);
      FiledFrame(old(nodes), nodes, slots, live);
    }

    /** A key that is not filed has no entry. */
    lemma AbsentFromEntries(key: K)
      requires Valid() && key !in slots
      ensures Spec.Lookup(Entries(), key) == None && Spec.Without(Entries(), key) == Entries()
    {
      forall i | 0 <= i < |order| ensures Entries()[i].key != key {
        EntriesAt(nodes, order, i);
        assert order[i] in live;
      }
      Spec.LookupAbsent(Entries(), key);
    }

    /** A filed key has exactly one entry, at the position of its slot. */
    lemma PositionOf(key: K) returns (i: nat)
      requires Valid() && key in slots
      ensures i < |order| && order[i] == slots[key] < |nodes|
      ensures Entries()[i] == Spec.Entry(key, nodes[slots[key]].value)
      ensures Spec.Lookup(Entries(), key) == Some(nodes[slots[key]].value)
      ensures Spec.Without(Entries(), key) == Entries()[..i] + Entries()[i + 1..]
    {
      assert slots[key] in live;
      i :| 0 <= i < |order| && order[i] == slots[key];
      EntriesAt(nodes, order, i);
      Spec.WithoutAt(Entries(), i);
    }

    /** Answers from the cache; a hit makes its entry the most recent one. */
    method Get(key: K) returns (answer: Option<V>)
      requires Valid()
      modifies this
      ensures Valid()
      ensures answer == Spec.Lookup(old(Entries()), key)
      ensures Entries() == Spec.Touch(old(Entries()), key)
    {
      if key in slots {
        var idx := slots[key];
        ghost var i := PositionOf(key);
        MoveToFront(idx, i);
        answer := Some(nodes[idx].value);
      } else {
        answer := None;
        AbsentFromEntries(key);
      }
    }

    /** Stores an entry in front, evicting the least recent one when the cache is full. */
    method Put(key: K, value: V)
      requires Valid()
      modifies this
      ensures Valid()
      ensures Entries() == Spec.Put(capacity, old(Entries()), key, value)
    {
      ghost var before := Entries();
      if key in slots {
        Overwrite(key, value);
        return;
      }
      AbsentFromEntries(key);
      if |slots| >= capacity {
        EvictTail();
        assert [Spec.Entry(key, value)] + before[..|before| - 1] == ([Spec.Entry(key, value)] + before)[..|before|];
      }
      Insert(key, value);
    }

    /** `put` of a key that is present. */
    method Overwrite(key: K, value: V)
      requires Valid() && key in slots
      modifies this
      ensures Valid()
      ensures Entries() == [Spec.Entry(key, value)] + Spec.Without(old(Entries()), key)
      ensures |Entries()| == |old(Entries())|
    {
      var idx := slots[key];
      ghost var i := PositionOf(key);
      ChainDistinct(nodes, None, order);
      EntriesOverwritten(nodes, order, i, nodes[idx].(value := value));
      nodes := nodes[idx := nodes[idx].(value := value)];
      ChainFrame(old(nodes), nodes, None, order);
      FiledFrame(old(nodes), nodes, slots, live);
      MoveToFront(idx, i);
    }

    /** The eviction inside `put`: frees the slot of the last entry. */
    method EvictTail()
      requires Valid() && |slots| > 0
      modifies this
      ensures Valid() && slots.Keys <= old(slots).Keys
      ensures Entries() == old(Entries())[..|old(Entries())| - 1]
    {
      ghost var last := |order| - 1;
      EntriesAt(nodes, order, last);
      if tail.Some? {
        var tailIdx := tail.value;
        Free(nodes[tailIdx].key, tailIdx, last);
      }
    }

    /** Takes a live slot out of the list and the map and frees it. */
    method Free(key: K, idx: nat, ghost i: nat)
      requires Valid() && i < |order| && order[i] == idx < |nodes| && nodes[idx].key == key
      modifies this
      ensures Valid() && slots == old(slots) - {key}
      ensures Entries() == old(Entries())[..i] + old(Entries())[i + 1..]
    {
      assert idx in live;
      EntriesRemoved(nodes, order, i);
      FiledWithout(nodes, slots, live, idx);
      PartitionedFreed(|nodes|, freeList, live, idx);
      RemoveNode(idx, i);
      slots := slots - {key};
      freeList := freeList + [idx];
      EntriesFrame(old(nodes), nodes, order);
      FiledFrame(old(nodes), nodes, slots, live);
    }

    /** Writes an unlinked node into a free slot, or into a new one at the end of the slab. */
    method TakeSlot(key: K, value: V) returns (idx: nat)
      requires Valid() && |slots| < capacity
      modifies this`nodes, this`freeList
      ensures idx < |nodes| && idx !in live && nodes[idx] == Node(key, value, None, None)
      ensures |old(nodes)| <= |nodes| && forall x <- live :: x < |old(nodes)| && nodes[x] == old(nodes)[x]
      ensures Partitioned(|nodes|, freeList, live + {idx})
      ensures |order| + 1 + |freeList| == |nodes| <= capacity
    {
      PartitionedTaken(|nodes|, freeList, live);
      if |freeList| > 0 {
        idx := freeList[|freeList| - 1];
        freeList := freeList[..|freeList| - 1];
        nodes := nodes[idx := Node(key, value, None, None)];
      } else {
        idx := |nodes|;
        nodes := nodes + [Node(key, value, None, None)];
      }
    }

    /** Stores a node outside the list and files it under its key. */
    method FileSlot(key: K, value: V) returns (idx: nat)
      requires Valid() && key !in slots && |slots| < capacity
      modifies this`nodes, this`freeList, this`slots
      ensures Linked() && idx < |nodes| && idx !in live && nodes[idx] == Node(key, value, None, None)
      ensures EntriesOf(nodes, order) == old(Entries())
      ensures Filed(nodes, slots, live + {idx}) && Partitioned(|nodes|, freeList, live + {idx})
      ensures |slots| == |order| + 1 && |order| + 1 + |freeList| == |nodes| <= capacity
    {
      idx := TakeSlot(key, value);
      StoredFrame(old(nodes), nodes, slots, order, idx);
      slots := slots[key := idx];
    }

    /** The end of `put` for a key that is not present, when there is room. */
    method Insert(key: K, value: V)
      requires Valid() && key !in slots && |slots| < capacity
      modifies this
      ensures Valid()
      ensures Entries() == [Spec.Entry(key, value)] + old(Entries())
    {
      var idx := FileSlot(key, value);
      ghost var stored := nodes;
      LinkFront(idx);
      FiledFrame(stored, nodes, slots, live);
      assert order[1..] == old(order);
      EntriesFrame(stored, nodes, order[1..]);
    }

    method Invalidate(key: K)
      requires Valid()
      modifies this
      ensures Valid()
      ensures Entries() == Spec.Without(old(Entries()), key)
    {
      if key in slots {
        ghost var i := PositionOf(key);
        Free(key, slots[key], i);
      } else {
        AbsentFromEntries(key);
      }
    }
  }
}
