/** Schemas: the types and enums declared in the KSL language. */
module Ast {
  import opened Prelude

  datatype DataType =
    | String | U16 | U32 | U64 | I32 | I64 | F64 | Boolean
    | Custom(name: string)
    | Array(element: DataType)

  datatype FieldDefinition = FieldDefinition(name: string, dataType: DataType, isIndexed: bool)

  datatype TypeDefinition = TypeDefinition(name: string, fields: seq<FieldDefinition>, prefix: Option<string>)

  datatype EnumDefinition = EnumDefinition(name: string, variants: seq<string>)

  datatype SchemaNode = Type(typeDef: TypeDefinition) | Enum(enumDef: EnumDefinition)
}
