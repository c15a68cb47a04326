/**
 Secondary indexes: from `type:field:value` to the set of keys whose record has that value.
 */
module Indexes {
  import opened Prelude
  import opened Ast
  import opened Store
  import opened Registry

  type Indexes = map<string, set<string>>

  /** The index keys that a record is filed under. */
  type Extractor = (string, Bytes) -> seq<string>

  predicate InIndex(ix: Indexes, ik: string, k: string) {
    ik in ix && k in ix[ik]
  }

  function AddKeys(ix: Indexes, iks: seq<string>, k: string): Indexes {
    if iks == [] then ix
    else
      var rest := AddKeys(ix, iks[..|iks| - 1], k);
      var ik := iks[|iks| - 1];
      rest[ik := (if ik in rest then rest[ik] else {}) + {k}]
  }

  function RemoveKeys(ix: Indexes, iks: seq<string>, k: string): Indexes {
    if iks == [] then ix
    else
      var rest := RemoveKeys(ix, iks[..|iks| - 1], k);
      var ik := iks[|iks| - 1];
      if ik in rest then rest[ik := rest[ik] - {k}] else rest
  }

  lemma {:induction false} AddKeysAt(ix: Indexes, iks: seq<string>, k: string, ik: string, k': string)
    ensures InIndex(AddKeys(ix, iks, k), ik, k') <==> InIndex(ix, ik, k') || (k' == k && ik in iks)
  {
    if iks != [] {
      AddKeysAt(ix, iks[..|iks| - 1], k, ik, k');
      assert iks == iks[..|iks| - 1] + [iks[|iks| - 1]];
    }
  }

  lemma {:induction false} RemoveKeysAt(ix: Indexes, iks: seq<string>, k: string, ik: string, k': string)
    ensures InIndex(RemoveKeys(ix, iks, k), ik, k') <==> InIndex(ix, ik, k') && !(k' == k && ik in iks)
  {
    if iks != [] {
      RemoveKeysAt(ix, iks[..|iks| - 1], k, ik, k');
      assert iks == iks[..|iks| - 1] + [iks[|iks| - 1]];
    }
  }

  lemma {:induction false} AddKeysDomain(ix: Indexes, iks: seq<string>, k: string)
    ensures forall ik :: ik in AddKeys(ix, iks, k) <==> ik in ix || ik in iks
  {
    if iks != [] {
      AddKeysDomain(ix, iks[..|iks| - 1], k);
      assert iks == iks[..|iks| - 1] + [iks[|iks| - 1]];
    }
  }

  lemma {:induction false} RemoveKeysDomain(ix: Indexes, iks: seq<string>, k: string)
    ensures RemoveKeys(ix, iks, k).Keys == ix.Keys
  {
    if iks != [] {
      RemoveKeysDomain(ix, iks[..|iks| - 1], k);
    }
  }

  /** Indexes are what they hold. */
  lemma IndexesEqual(ix: Indexes, ix': Indexes)
    requires ix.Keys == ix'.Keys && forall ik, k :: InIndex(ix, ik, k) <==> InIndex(ix', ik, k)
    ensures ix == ix'
  {
    forall ik | ik in ix ensures ix[ik] == ix'[ik] {
      forall k ensures k in ix[ik] <==> k in ix'[ik] {
        assert InIndex(ix, ik, k) <==> InIndex(ix', ik, k);
      }
    }
  }

  // --- Extraction ------------------------------------------------------------------------------

  /** The part of a key before its first colon. */
  function TypePrefix(key: string): string {
    if key == [] || key[0] == ':' then [] else [key[0]] + TypePrefix(key[1..])
  }

  function Rendered(v: Json): Option<string> {
    match v
    case JString(s) => Some(s)
    case JNumber(text, _) => Some(text)
    case JBool(b) => Some(if b then "true" else "false")
    case _ => None
  }

  function IndexKey(typeName: string, field: string, value: string): string {
    typeName + (":" + (field + (":" + value)))
  }

  function FieldKeys(typeName: string, fields: seq<FieldDefinition>, members: map<string, Json>): seq<string> {
    if fields == [] then []
    else
      var f := fields[0];
      (if f.name in members && Rendered(members[f.name]).Some?
       then [IndexKey(typeName, f.name, Rendered(members[f.name]).value)] else []) +
      FieldKeys(typeName, fields[1..], members)
  }

  /** The index keys of a record, given how its bytes parse as JSON. */
  function ExtractKeys(reg: Registry, parse: Bytes -> Option<Json>, key: string, val: Bytes): seq<string> {
    var fields := IndexedFields(reg, TypePrefix(key));
    var json := parse(val);
    if fields.Some? && json.Some? && json.value.JObject?
    then FieldKeys(reg.prefixMap[TypePrefix(key)], fields.value, json.value.members)
    else []
  }

  /** How a query asks for a value: a string by itself, a number by its text, true and false by
      their names.  Nothing else can be asked for. */
  predicate AskedAs(v: Json, text: string) {
    || (v.JString? && text == v.s)
    || (v.JNumber? && text == v.text)
    || (v.JBool? && v.b && text == "true")
    || (v.JBool? && !v.b && text == "false")
  }

  /** Whether a full scan would report the record for a query: its type has that name and an
      indexed field of that name whose value is the one asked for. */
  predicate Matches(reg: Registry, parse: Bytes -> Option<Json>, key: string, val: Bytes,
                    typeName: string, field: string, value: string) {
    var prefix := TypePrefix(key);
    && prefix in reg.prefixMap && reg.prefixMap[prefix] in reg.types && reg.prefixMap[prefix] == typeName
    && (exists f <- reg.types[typeName].fields :: f.isIndexed && f.name == field)
    && parse(val).Some? && parse(val).value.JObject?
    && field in parse(val).value.members && AskedAs(parse(val).value.members[field], value)
  }
}
