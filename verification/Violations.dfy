/**
 Which error validation reports: the first violation, in the order of fields and items.
 */
module Violations {
  import opened Prelude
  import opened Ast
  import opened Registry

  // --- Violations along a path of positions ------------------------------------------------------------

  /** The value is to have the type behind the name, and the path leads to its first violation. */
  ghost predicate RecordViolates(r: Registry, typeName: string, v: Json, path: seq<nat>, e: ValidationError)
    decreases |path|, 0
  {
    if typeName !in r.types then path == [] && e == TypeNotFound(typeName)
    else if !v.JObject? then path == [] && e == InvalidType("root", "Object")
    else
      var fields := r.types[typeName].fields;
      && path != [] && path[0] < |fields|
      && (forall j :: 0 <= j < path[0] ==> MemberConforms(r, fields[j], v))
      && var f := fields[path[0]];
         if f.name !in v.members then |path| == 1 && e == FieldMissing(f.name)
         else FieldViolates(r, f.name, f.dataType, v.members[f.name], path[1..], e)
  }

  /** The same for a field of a type. */
  ghost predicate FieldViolates(r: Registry, field: string, dataType: DataType, v: Json, path: seq<nat>,
                                e: ValidationError)
    decreases |path|, 1
  {
    match dataType
    case String => !v.JString? && path == [] && e == InvalidType(field, "String")
    case U16 | U32 | U64 | I32 | I64 => !(v.JNumber? && v.isInteger) && path == [] && e == InvalidType(field, "Integer")
    case F64 => !v.JNumber? && path == [] && e == InvalidType(field, "Float")
    case Boolean => !v.JBool? && path == [] && e == InvalidType(field, "Boolean")
    case Custom(name) =>
      if name in r.enums then
        && path == []
        && if v.JString? then v.s !in r.enums[name].variants && e == InvalidEnumVariant(field, v.s)
           else e == InvalidType(field, "String (Enum Variant)")
      else if name in r.types then RecordViolates(r, name, v, path, e)
      else path == [] && e == TypeNotFound(name)
    case Array(element) =>
      if !v.JArray? then path == [] && e == InvalidType(field, "Array")
      else
        && path != [] && path[0] < |v.items|
        && (forall j :: 0 <= j < path[0] ==> Conforms(r, Demand(element, v.items[j])))
        && FieldViolates(r, field + "[" + Digits(path[0]) + "]", element, v.items[path[0]], path[1..], e)
  }

  // --- Positions in decimal ----------------------------------------------------------------------------------

  function Value(digits: string): nat {
    if digits == [] then 0
    else
      var d := digits[|digits| - 1];
      Value(digits[..|digits| - 1]) * 10 + if '0' <= d <= '9' then d as int - '0' as int else 0
  }

  lemma DigitExact(d: nat)
    requires d < 10
    ensures var c := ('0' as int + d) as char;
            '0' <= c <= '9' && Value([c]) == d && (c == '0' <==> d == 0)
  {
    var c := ('0' as int + d) as char;
    assert [c][..0] == [];
  }

  lemma ValueSnoc(digits: string, c: char)
    requires '0' <= c <= '9'
    ensures Value(digits + [c]) == Value(digits) * 10 + (c as int - '0' as int)
  {
    assert (digits + [c])[..|digits|] == digits;
  }

  /** Positions are written in decimal, without leading zeros. */
  lemma {:induction false} DigitsExact(n: nat)
    ensures Digits(n) != [] && Value(Digits(n)) == n
    ensures forall c <- Digits(n) :: '0' <= c <= '9'
    ensures Digits(n)[0] == '0' ==> n == 0
  {
    var last := ('0' as int + n % 10) as char;
    DigitExact(n % 10);
    if n < 10 {
      assert Digits(n) == [last];
    } else {
      DigitsExact(n / 10);
      ValueSnoc(Digits(n / 10), last);
      assert Digits(n) == Digits(n / 10) + [last];
    }
  }

  // --- A violation is reported ---------------------------------------------------------------------------------

  lemma {:induction false} MembersSkip(r: Registry, fields: seq<FieldDefinition>, v: Json, a: nat, b: nat)
    requires v.JObject? && a <= b <= |fields| && forall j :: a <= j < b ==> MemberConforms(r, fields[j], v)
    ensures ValidateMembers(r, fields, v, a) == ValidateMembers(r, fields, v, b)
    decreases b - a
  {
    if a < b {
      assert MemberConforms(r, fields[a], v);
      ValidateFieldExact(r, fields[a].name, fields[a].dataType, v.members[fields[a].name]);
      MembersSkip(r, fields, v, a + 1, b);
    }
  }

  lemma {:induction false} ItemsSkip(r: Registry, field: string, element: DataType, v: Json, a: nat, b: nat)
    requires v.JArray? && a <= b <= |v.items|
    requires forall j :: a <= j < b ==> Conforms(r, Demand(element, v.items[j]))
    ensures ValidateItems(r, field, element, v, a) == ValidateItems(r, field, element, v, b)
    decreases b - a
  {
    if a < b {
      assert Conforms(r, Demand(element, v.items[a]));
      ValidateFieldExact(r, field + "[" + Digits(a) + "]", element, v.items[a]);
      ItemsSkip(r, field, element, v, a + 1, b);
    }
  }

  lemma {:induction false} RecordReported(r: Registry, typeName: string, v: Json, path: seq<nat>, e: ValidationError)
    requires RecordViolates(r, typeName, v, path, e)
    ensures Validate(r, typeName, v) == Err(e)
    decreases |path|, 0
  {
    if typeName in r.types && v.JObject? {
      var fields, i := r.types[typeName].fields, path[0];
      MembersSkip(r, fields, v, 0, i);
      if fields[i].name in v.members {
        FieldReported(r, fields[i].name, fields[i].dataType, v.members[fields[i].name], path[1..], e);
      }
    }
  }

  lemma {:induction false} FieldReported(r: Registry, field: string, dataType: DataType, v: Json, path: seq<nat>,
                                         e: ValidationError)
    requires FieldViolates(r, field, dataType, v, path, e)
    ensures ValidateField(r, field, dataType, v) == Err(e)
    decreases |path|, 1
  {
    match dataType
    case Custom(name) =>
      if name !in r.enums && name in r.types {
        RecordReported(r, name, v, path, e);
      }
    case Array(element) =>
      if v.JArray? {
        var i := path[0];
        ItemsSkip(r, field, element, v, 0, i);
        FieldReported(r, field + "[" + Digits(i) + "]", element, v.items[i], path[1..], e);
      }
    case _ =>
  }

  // --- What is reported is a violation ---------------------------------------------------------------------------

  lemma {:induction false} RecordViolation(r: Registry, typeName: string, v: Json, e: ValidationError)
      returns (path: seq<nat>)
    requires Validate(r, typeName, v) == Err(e)
    ensures RecordViolates(r, typeName, v, path, e)
    decreases v, 2, 0
  {
    path := [];
    if typeName in r.types && v.JObject? {
      path := MemberViolation(r, typeName, v, 0, e);
    }
  }

  lemma {:induction false} MemberViolation(r: Registry, typeName: string, v: Json, i: nat, e: ValidationError)
      returns (path: seq<nat>)
    requires typeName in r.types && v.JObject? && i <= |r.types[typeName].fields|
    requires forall j :: 0 <= j < i ==> MemberConforms(r, r.types[typeName].fields[j], v)
    requires ValidateMembers(r, r.types[typeName].fields, v, i) == Err(e)
    ensures RecordViolates(r, typeName, v, path, e)
    decreases v, 1, |r.types[typeName].fields| - i
  {
    var f := r.types[typeName].fields[i];
    if f.name !in v.members {
      path := [i];
    } else if ValidateField(r, f.name, f.dataType, v.members[f.name]).Err? {
      var inner := FieldViolation(r, f.name, f.dataType, v.members[f.name], e);
      path := [i] + inner;
      assert path[1..] == inner;
    } else {
      ValidateFieldExact(r, f.name, f.dataType, v.members[f.name]);
      path := MemberViolation(r, typeName, v, i + 1, e);
    }
  }

  lemma {:induction false} FieldViolation(r: Registry, field: string, dataType: DataType, v: Json, e: ValidationError)
      returns (path: seq<nat>)
    requires ValidateField(r, field, dataType, v) == Err(e)
    ensures FieldViolates(r, field, dataType, v, path, e)
    decreases v, 3, 0
  {
    path := [];
    match dataType
    case Custom(name) =>
      if name !in r.enums && name in r.types {
        path := RecordViolation(r, name, v, e);
      }
    case Array(element) =>
      if v.JArray? {
        path := ItemViolation(r, field, element, v, 0, e);
      }
    case _ =>
  }

  lemma {:induction false} ItemViolation(r: Registry, field: string, element: DataType, v: Json, i: nat,
                                       e: ValidationError)
      returns (path: seq<nat>)
    requires v.JArray? && i <= |v.items| && forall j :: 0 <= j < i ==> Conforms(r, Demand(element, v.items[j]))
    requires ValidateItems(r, field, element, v, i) == Err(e)
    ensures FieldViolates(r, field, Array(element), v, path, e)
    decreases v, 1, |v.items| - i
  {
    var name := field + "[" + Digits(i) + "]";
    if ValidateField(r, name, element, v.items[i]).Err? {
      var inner := FieldViolation(r, name, element, v.items[i], e);
      path := [i] + inner;
      assert path[1..] == inner;
    } else {
      ValidateFieldExact(r, name, element, v.items[i]);
      path := ItemViolation(r, field, element, v, i + 1, e);
    }
  }

  // --- Main theorem --------------------------------------------------------------------------------------------------

  ghost predicate FirstViolation(r: Registry, typeName: string, v: Json, e: ValidationError) {
    exists path :: RecordViolates(r, typeName, v, path, e)
  }

  /** Validation reports an error if and only if it is the first violation. */
  lemma ErrorExact(r: Registry, typeName: string, v: Json, e: ValidationError)
    ensures Validate(r, typeName, v) == Err(e) <==> FirstViolation(r, typeName, v, e)
  {
    if Validate(r, typeName, v) == Err(e) {
      var path := RecordViolation(r, typeName, v, e);
    }
    if FirstViolation(r, typeName, v, e) {
      var path :| RecordViolates(r, typeName, v, path, e);
      RecordReported(r, typeName, v, path, e);
    }
  }
}
