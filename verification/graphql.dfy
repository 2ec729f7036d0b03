/** The GraphQL schema as the viewer sees it: the introspection payload
    (operations of the query type and the list of all types) and the type
    descriptors that schema processing expands in place. */
module GraphQL {
  import opened Wrappers

  /** A type descriptor. `name` may carry list and non-null decorations
      (`[Person!]`). `fields` is absent until expansion attaches the fields
      of the named type; `enumValues` holds the names of an enum's values. */
  datatype TypeDef = TypeDef(name: string, fields: FieldList, enumValues: Option<seq<string>>)

  /** A type's field list, which may be absent (`undefined`). An empty list
      is present, and truthy, as any JavaScript array. */
  datatype FieldList = Absent | Present(items: seq<Field>)

  /** A field, input field or element of a type's field list. */
  datatype Field = Field(name: string, typ: TypeDef)

  /** An operation argument. `inputFields` is filled in by schema processing
      from the argument's input type. */
  datatype Arg = Arg(name: string, typeName: string, inputFields: Option<seq<Field>>)

  /** An operation of the query type (a data source). `labelText` (the source's `label`) is attached
      by schema processing. */
  datatype Operation = Operation(name: string, args: Option<seq<Arg>>, typ: TypeDef, labelText: Option<string>)

  /** An entry of `__schema.types`. */
  datatype SchemaType = SchemaType(
    name: string,
    inputFields: Option<seq<Field>>,
    fields: Option<seq<Field>>,
    enumValues: Option<seq<string>>)

  /** `__schema`: the query type's fields (possibly absent) and all types. */
  datatype Schema = Schema(queryFields: Option<seq<Operation>>, types: seq<SchemaType>)

  /** A bare type reference, as introspection returns it (`type { name }`). */
  function Ref(name: string): TypeDef {
    TypeDef(name, Absent, None)
  }
}
