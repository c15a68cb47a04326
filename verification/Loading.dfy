/**
 What loading declarations leaves in the registry: of several declarations under one name, or
 of several types under one key prefix, the last.
 */
module Loading {
  import opened Prelude
  import opened Ast
  import opened Parser
  import opened Printer
  import opened Registry

  /** Capital letters go to the small letter at the same place in the alphabet. */
  ghost predicate IsLower(c: char, l: char) {
    if 'A' <= c <= 'Z' then l as int - 'a' as int == c as int - 'A' as int else l == c
  }

  ghost predicate IsLowered(s: string, l: string) {
    |l| == |s| && forall i :: 0 <= i < |s| ==> IsLower(s[i], l[i])
  }

  /** Where a declaration is filed. */
  datatype Slot = TypeSlot(name: string) | EnumSlot(name: string) | PrefixSlot(prefix: string)

  /** The declaration is filed in the slot: a type under its name and its prefix, which is the
      annotated one or, without annotation, its name in lower case. */
  ghost predicate FiledIn(n: SchemaNode, slot: Slot) {
    match slot
    case TypeSlot(name) => n.Type? && n.typeDef.name == name
    case EnumSlot(name) => n.Enum? && n.enumDef.name == name
    case PrefixSlot(p) =>
      && n.Type?
      && if n.typeDef.prefix.Some? then n.typeDef.prefix == Some(p) else IsLowered(n.typeDef.name, p)
  }

  ghost predicate LastIn(ns: seq<SchemaNode>, slot: Slot, i: int) {
    0 <= i < |ns| && FiledIn(ns[i], slot) && forall j :: i < j < |ns| ==> !FiledIn(ns[j], slot)
  }

  datatype Content = Nothing | TypeHeld(t: TypeDefinition) | EnumHeld(e: EnumDefinition) | NameHeld(name: string)

  /** What the registry holds in a slot; for a prefix, the name of a type. */
  ghost function Held(r: Registry, slot: Slot): Content {
    match slot
    case TypeSlot(name) => if name in r.types then TypeHeld(r.types[name]) else Nothing
    case EnumSlot(name) => if name in r.enums then EnumHeld(r.enums[name]) else Nothing
    case PrefixSlot(p) => if p in r.prefixMap then NameHeld(r.prefixMap[p]) else Nothing
  }

  /** What a declaration puts into a slot. */
  ghost function Filing(n: SchemaNode, slot: Slot): Content {
    match n
    case Type(t) => if slot.PrefixSlot? then NameHeld(t.name) else TypeHeld(t)
    case Enum(e) => EnumHeld(e)
  }

  lemma LoweredExact(s: string, l: string)
    ensures IsLowered(s, l) <==> ToLowercase(s) == l
  {
    assert forall i :: 0 <= i < |s| && i < |l| ==> (IsLower(s[i], l[i]) <==> ToLowercase(s)[i] == l[i]);
  }

  lemma PrefixExact(t: TypeDefinition, p: string)
    ensures FiledIn(Type(t), PrefixSlot(p)) <==> PrefixFor(t) == p
  {
    LoweredExact(t.name, p);
  }

  lemma NodeLoaded(r: Registry, n: SchemaNode, slot: Slot)
    ensures Held(LoadNode(r, n), slot) == if FiledIn(n, slot) then Filing(n, slot) else Held(r, slot)
  {
    if n.Type? && slot.PrefixSlot? {
      PrefixExact(n.typeDef, slot.prefix);
    }
  }

  /** Loading leaves in each slot the last declaration filed there, and leaves every other slot
      as it was. */
  lemma {:induction false} LoadedExact(r: Registry, ns: seq<SchemaNode>, slot: Slot)
    ensures forall i :: LastIn(ns, slot, i) ==> Held(LoadNodes(r, ns), slot) == Filing(ns[i], slot)
    ensures (forall i :: 0 <= i < |ns| ==> !FiledIn(ns[i], slot)) ==>
              Held(LoadNodes(r, ns), slot) == Held(r, slot)
  {
    if ns != [] {
      var last := |ns| - 1;
      LoadedExact(r, ns[..last], slot);
      NodeLoaded(LoadNodes(r, ns[..last]), ns[last], slot);
      forall i | LastIn(ns, slot, i) ensures Held(LoadNodes(r, ns), slot) == Filing(ns[i], slot) {
        if i < last {
          assert LastIn(ns[..last], slot, i);
        }
      }
      if forall i :: 0 <= i < |ns| ==> !FiledIn(ns[i], slot) {
        assert forall i :: 0 <= i < last ==> !FiledIn(ns[..last][i], slot);
      }
    }
  }

  /** After a text is loaded into an empty registry, a type or an enum is found under a name, and
      a type name under a prefix, exactly when the last declaration filed there says so. */
  lemma LoadedFromEmpty(ns: seq<SchemaNode>, slot: Slot, x: Content)
    ensures Held(LoadNodes(EMPTY, ns), slot) == x <==>
            if x == Nothing then forall i :: 0 <= i < |ns| ==> !FiledIn(ns[i], slot)
            else exists i :: LastIn(ns, slot, i) && Filing(ns[i], slot) == x
  {
    LoadedExact(EMPTY, ns, slot);
    if !forall i :: 0 <= i < |ns| ==> !FiledIn(ns[i], slot) {
      LastExists(ns, slot);
    }
  }

  lemma {:induction false} LastExists(ns: seq<SchemaNode>, slot: Slot)
    requires exists i :: 0 <= i < |ns| && FiledIn(ns[i], slot)
    ensures exists i :: LastIn(ns, slot, i)
  {
    var last := |ns| - 1;
    if FiledIn(ns[last], slot) {
      assert LastIn(ns, slot, last);
    } else {
      var i :| 0 <= i < |ns| && FiledIn(ns[i], slot);
      assert FiledIn(ns[..last][i], slot);
      LastExists(ns[..last], slot);
      var j :| LastIn(ns[..last], slot, j);
      assert LastIn(ns, slot, j);
    }
  }
}
