/**
 The schema registry: loading declarations, validating JSON values against them, and the
 fields that a key prefix indexes.
 */
module Registry {
  import opened Prelude
  import opened Ast
  import opened Parser
  import opened Printer

  datatype Json =
    | JNull
    | JBool(b: bool)
    | JNumber(text: string, isInteger: bool)
    | JString(s: string)
    | JArray(items: seq<Json>)
    | JObject(members: map<string, Json>)

  datatype Registry = Registry(
    types: map<string, TypeDefinition>,
    enums: map<string, EnumDefinition>,
    prefixMap: map<string, string>)

  const EMPTY := Registry(map[], map[], map[])

  datatype ValidationError =
    | TypeNotFound(name: string)
    | FieldMissing(field: string)
    | InvalidType(field: string, expected: string)
    | InvalidEnumVariant(field: string, variant: string)

  // --- Loading -----------------------------------------------------------------------------

  function LowerChar(c: char): char {
    if 'A' <= c <= 'Z' then (c as int + 32) as char else c
  }

  function ToLowercase(s: string): string {
    seq(|s|, i requires 0 <= i < |s| => LowerChar(s[i]))
  }

  function PrefixFor(t: TypeDefinition): string {
    if t.prefix.Some? then t.prefix.value else ToLowercase(t.name)
  }

  function LoadNode(r: Registry, n: SchemaNode): Registry {
    match n
    case Type(t) => r.(prefixMap := r.prefixMap[PrefixFor(t) := t.name], types := r.types[t.name := t])
    case Enum(e) => r.(enums := r.enums[e.name := e])
  }

  function LoadNodes(r: Registry, ns: seq<SchemaNode>): Registry {
    if ns == [] then r else LoadNode(LoadNodes(r, ns[..|ns| - 1]), ns[|ns| - 1])
  }

  /** Names are lexer identifiers, types are filed under their own names, and every prefix
      leads to a type. */
  ghost predicate Named(r: Registry) {
    && (forall n <- r.types :: WfNode(Type(r.types[n])) && r.types[n].name == n)
    && (forall p <- r.prefixMap :: r.prefixMap[p] in r.types)
  }

  lemma {:induction false} LoadKeepsNamed(r: Registry, ns: seq<SchemaNode>)
    requires Named(r) && WfSchema(ns)
    ensures Named(LoadNodes(r, ns))
  {
    if ns != [] {
      var last := |ns| - 1;
      assert ns[last] in ns;
      LoadKeepsNamed(r, ns[..last]);
    }
  }

  class SchemaRegistry {
    var types: map<string, TypeDefinition>
    var enums: map<string, EnumDefinition>
    var prefixMap: map<string, string>

    ghost function Value(): Registry
      reads this
    {
      Registry(types, enums, prefixMap)
    }

    constructor ()
      ensures Value() == EMPTY
    {
      types, enums, prefixMap := map[], map[], map[];
    }

    /** Loads every declaration of a text, or nothing when it does not parse.  Whatever is
        loaded, names stay lexer identifiers and prefixes lead to types. */
    method LoadSchema(sdl: string) returns (r: Result<(), SyntaxError>)
      requires Named(Value())
      modifies this
      ensures Named(Value())
      ensures match ParseText(sdl)
              case Ok(nodes) => r == Ok(()) && Value() == LoadNodes(old(Value()), nodes)
              case Err(e) => r == Err(e) && Value() == old(Value())
    {
      var parser := new Parser(sdl);
      var nodes :- parser.Parse();
      ParsedIsWf(sdl, nodes);
      LoadKeepsNamed(Value(), nodes);
      LoadAll(nodes);
      return Ok(());
    }

    /** The loop that registers parsed declarations; later ones replace earlier ones. */
    method LoadAll(nodes: seq<SchemaNode>)
      modifies this
      ensures Value() == LoadNodes(old(Value()), nodes)
    {
      for i := 0 to |nodes|
        invariant Value() == LoadNodes(old(Value()), nodes[..i])
      {
        match nodes[i] {
          case Type(t) =>
            prefixMap := prefixMap[PrefixFor(t) := t.name];
            types := types[t.name := t];
          case Enum(e) =>
            enums := enums[e.name := e];
        }
        assert nodes[..i + 1][..i] == nodes[..i];
      }
      assert nodes[..|nodes|] == nodes;
    }
  }

  lemma ParsedIsWf(text: string, nodes: seq<SchemaNode>)
    requires ParseText(text) == Ok(nodes)
    ensures WfSchema(nodes)
  {
    ParserRange(nodes);
  }

  // --- Indexed fields ------------------------------------------------------------------------

  function OnlyIndexed(fs: seq<FieldDefinition>): seq<FieldDefinition> {
    if fs == [] then []
    else OnlyIndexed(fs[..|fs| - 1]) + if fs[|fs| - 1].isIndexed then [fs[|fs| - 1]] else []
  }

  lemma {:induction false} OnlyIndexedMembers(fs: seq<FieldDefinition>)
    ensures forall f :: f in OnlyIndexed(fs) <==> f in fs && f.isIndexed
  {
    if fs != [] {
      OnlyIndexedMembers(fs[..|fs| - 1]);
      assert fs == fs[..|fs| - 1] + [fs[|fs| - 1]];
    }
  }

  function IndexedFields(r: Registry, prefix: string): Option<seq<FieldDefinition>> {
    if prefix in r.prefixMap && r.prefixMap[prefix] in r.types then
      var indexed := OnlyIndexed(r.types[r.prefixMap[prefix]].fields);
      if indexed == [] then None else Some(indexed)
    else None
  }

  method IndexedFieldsForPrefix(r: Registry, prefix: string) returns (fields: Option<seq<FieldDefinition>>)
    ensures fields == IndexedFields(r, prefix)
    ensures fields.Some? ==>
              forall f :: f in fields.value <==> f in r.types[r.prefixMap[prefix]].fields && f.isIndexed
  {
    if prefix !in r.prefixMap || r.prefixMap[prefix] !in r.types {
      return None;
    }
    var all := r.types[r.prefixMap[prefix]].fields;
    OnlyIndexedMembers(all);
    var indexed := [];
    for i := 0 to |all|
      invariant indexed == OnlyIndexed(all[..i])
    {
      assert all[..i + 1][..i] == all[..i];
      if all[i].isIndexed {
        indexed := indexed + [all[i]];
      }
    }
    assert all[..|all|] == all;
    fields := if indexed == [] then None else Some(indexed);
  }

  // --- Validation ------------------------------------------------------------------------------

  function Digits(n: nat): string {
    (if n < 10 then [] else Digits(n / 10)) + [('0' as int + n % 10) as char]
  }

  type Verdict = Result<(), ValidationError>

  function Require(ok: bool, field: string, expected: string): Verdict {
    if ok then Ok(()) else Err(InvalidType(field, expected))
  }

  function Validate(r: Registry, typeName: string, v: Json): Verdict
    decreases v, 2, 0
  {
    if typeName !in r.types then Err(TypeNotFound(typeName))
    else if !v.JObject? then Err(InvalidType("root", "Object"))
    else ValidateMembers(r, r.types[typeName].fields, v, 0)
  }

  /** The fields from the `i`-th on, in order, up to the first error. */
  function ValidateMembers(r: Registry, fields: seq<FieldDefinition>, v: Json, i: nat): Verdict
    requires v.JObject? && i <= |fields|
    decreases v, 1, |fields| - i
  {
    if i == |fields| then Ok(())
    else if fields[i].name !in v.members then Err(FieldMissing(fields[i].name))
    else
      var _ :- ValidateField(r, fields[i].name, fields[i].dataType, v.members[fields[i].name]);
      ValidateMembers(r, fields, v, i + 1)
  }

  function ValidateField(r: Registry, field: string, dataType: DataType, v: Json): Verdict
    decreases v, 3, 0
  {
    match dataType
    case String => Require(v.JString?, field, "String")
    case U16 | U32 | U64 | I32 | I64 => Require(v.JNumber? && v.isInteger, field, "Integer")
    case F64 => Require(v.JNumber?, field, "Float")
    case Boolean => Require(v.JBool?, field, "Boolean")
    case Custom(name) =>
      if name in r.enums then
        if !v.JString? then Err(InvalidType(field, "String (Enum Variant)"))
        else if v.s !in r.enums[name].variants then Err(InvalidEnumVariant(field, v.s))
        else Ok(())
      else if name in r.types then Validate(r, name, v)
      else Err(TypeNotFound(name))
    case Array(element) =>
      if !v.JArray? then Err(InvalidType(field, "Array")) else ValidateItems(r, field, element, v, 0)
  }

  /** The items from the `i`-th on, in order, up to the first error. */
  function ValidateItems(r: Registry, field: string, element: DataType, v: Json, i: nat): Verdict
    requires v.JArray? && i <= |v.items|
    decreases v, 1, |v.items| - i
  {
    if i == |v.items| then Ok(())
    else
      var _ :- ValidateField(r, field + "[" + Digits(i) + "]", element, v.items[i]);
      ValidateItems(r, field, element, v, i + 1)
  }

  // --- Conformance, stated without recursion over types ------------------------------------------

  /** A value that is to have a type. */
  datatype Demand = Demand(dataType: DataType, value: Json)

  /** What a demand requires of the value itself, leaving aside what is inside it. */
  predicate LocallyOk(r: Registry, d: Demand) {
    var v := d.value;
    match d.dataType
    case String => v.JString?
    case U16 | U32 | U64 | I32 | I64 => v.JNumber? && v.isInteger
    case F64 => v.JNumber?
    case Boolean => v.JBool?
    case Array(_) => v.JArray?
    case Custom(name) =>
      if name in r.enums then v.JString? && v.s in r.enums[name].variants
      else name in r.types && v.JObject? && forall f <- r.types[name].fields :: f.name in v.members
  }

  /** The `i`-th demand inside a value: an array item or a declared field. */
  function Inner(r: Registry, d: Demand, i: nat): Option<Demand> {
    match d.dataType
    case Array(element) =>
      if d.value.JArray? && i < |d.value.items| then Some(Demand(element, d.value.items[i])) else None
    case Custom(name) =>
      if name !in r.enums && name in r.types && d.value.JObject? && i < |r.types[name].fields|
         && r.types[name].fields[i].name in d.value.members
      then Some(Demand(r.types[name].fields[i].dataType, d.value.members[r.types[name].fields[i].name]))
      else None
    case _ => None
  }

  /** The demand that a path of positions leads to. */
  function Follow(r: Registry, d: Demand, path: seq<nat>): Option<Demand>
    decreases |path|
  {
    if path == [] then Some(d)
    else match Inner(r, d, path[0])
      case None => None
      case Some(d') => Follow(r, d', path[1..])
  }

  /** A value conforms when every demand that any path reaches is locally satisfied. */
  ghost predicate Conforms(r: Registry, d: Demand) {
    forall path :: Follow(r, d, path).Some? ==> LocallyOk(r, Follow(r, d, path).value)
  }

  lemma ConformsStep(r: Registry, d: Demand)
    ensures Conforms(r, d) <==>
            LocallyOk(r, d) && forall i :: Inner(r, d, i).Some? ==> Conforms(r, Inner(r, d, i).value)
  {
    if Conforms(r, d) {
      assert Follow(r, d, []) == Some(d);
      forall i: nat, path | Inner(r, d, i).Some? && Follow(r, Inner(r, d, i).value, path).Some?
        ensures LocallyOk(r, Follow(r, Inner(r, d, i).value, path).value)
      {
        assert ([i] + path)[1..] == path;
        assert Follow(r, d, [i] + path) == Follow(r, Inner(r, d, i).value, path);
      }
    }
    if LocallyOk(r, d) && forall i :: Inner(r, d, i).Some? ==> Conforms(r, Inner(r, d, i).value) {
      forall path | Follow(r, d, path).Some? ensures LocallyOk(r, Follow(r, d, path).value) {
        if path != [] {
          assert Conforms(r, Inner(r, d, path[0]).value);
        }
      }
    }
  }

  /** Main theorem: for every registry, self-referential types included, validation ends and
      accepts exactly the conforming values. */
  lemma {:induction false} ValidateFieldExact(r: Registry, field: string, dataType: DataType, v: Json)
    ensures ValidateField(r, field, dataType, v).Ok? <==> Conforms(r, Demand(dataType, v))
    decreases v, 3, 0
  {
    var d := Demand(dataType, v);
    ConformsStep(r, d);
    match dataType
    case Custom(name) =>
      if name !in r.enums && name in r.types && v.JObject? {
        ValidateMembersExact(r, r.types[name].fields, v, 0);
        var fields := r.types[name].fields;
        assert forall i :: 0 <= i < |fields| ==> fields[i] in fields;
        if Conforms(r, d) {
          forall i | 0 <= i < |fields| ensures MemberConforms(r, fields[i], v) {
            assert Inner(r, d, i).Some?;
          }
        }
      }
    case Array(element) =>
      if v.JArray? {
        ValidateItemsExact(r, field, element, v, 0);
        if Conforms(r, d) {
          forall i | 0 <= i < |v.items| ensures Conforms(r, Demand(element, v.items[i])) {
            assert Inner(r, d, i).Some?;
          }
        }
      }
    case _ =>
  }

  ghost predicate MemberConforms(r: Registry, f: FieldDefinition, v: Json)
    requires v.JObject?
  {
    f.name in v.members && Conforms(r, Demand(f.dataType, v.members[f.name]))
  }

  lemma {:induction false} ValidateMembersExact(r: Registry, fields: seq<FieldDefinition>, v: Json, i: nat)
    requires v.JObject? && i <= |fields|
    ensures ValidateMembers(r, fields, v, i).Ok? <==> forall j :: i <= j < |fields| ==> MemberConforms(r, fields[j], v)
    decreases v, 1, |fields| - i
  {
    if i < |fields| && fields[i].name in v.members {
      ValidateFieldExact(r, fields[i].name, fields[i].dataType, v.members[fields[i].name]);
      ValidateMembersExact(r, fields, v, i + 1);
    }
  }

  lemma {:induction false} ValidateItemsExact(r: Registry, field: string, element: DataType, v: Json, i: nat)
    requires v.JArray? && i <= |v.items|
    ensures ValidateItems(r, field, element, v, i).Ok? <==>
            forall j :: i <= j < |v.items| ==> Conforms(r, Demand(element, v.items[j]))
    decreases v, 1, |v.items| - i
  {
    if i < |v.items| {
      ValidateFieldExact(r, field + "[" + Digits(i) + "]", element, v.items[i]);
      ValidateItemsExact(r, field, element, v, i + 1);
    }
  }

  /** The entry point: the type must be declared, and its own name is looked up among the
      types even when an enum shadows it. */
  lemma ValidateExact(r: Registry, typeName: string, v: Json)
    ensures Validate(r, typeName, v).Ok? <==>
            typeName in r.types && v.JObject? &&
            forall f <- r.types[typeName].fields :: MemberConforms(r, f, v)
  {
    if typeName in r.types && v.JObject? {
      ValidateMembersExact(r, r.types[typeName].fields, v, 0);
    }
  }

  /** Integer types are not told apart: whatever one of them accepts, all accept, so that U16
      takes 70000 and U64 takes -1. */
  lemma WidthIgnored(r: Registry, field: string, t: DataType, t': DataType, v: Json)
    requires t in {U16, U32, U64, I32, I64} && t' in {U16, U32, U64, I32, I64}
    ensures ValidateField(r, field, t, v) == ValidateField(r, field, t', v)
    ensures ValidateField(r, field, U16, JNumber("70000", true)) == Ok(())
    ensures ValidateField(r, field, U64, JNumber("-1", true)) == Ok(())
  {
  }
}
