/**
 The part of the JSON Schema object model that step-schema composition reads or writes:
 one schema node (the Go library's `jsonschema.Type`), the definitions table, and the
 result of reflecting one Go type (a top-level node plus the named definitions it needs).
 */
module JsonSchema {

  datatype Option<T> = None | Some(value: T)

  /**
   One schema node. A Go zero value (empty string, nil slice, nil raw JSON) is the empty
   value of the field. `properties` keeps apart a nil ordered map (`None`, the keyword is
   omitted) from an empty one (`Some(map[])`, serialised as `{}`); the order of its keys
   is not modelled.
   */
  datatype SchemaType = SchemaType(
    ref: string,                                  // "$ref"
    typeTag: string,                              // "type"
    items: Option<SchemaType>,                    // "items"
    properties: Option<map<string, SchemaType>>,  // "properties"
    required: seq<string>,                        // "required"
    anyOf: seq<SchemaType>,                       // "anyOf"
    additionalProperties: string                  // raw JSON text of "additionalProperties"
  )

  /** The global table of named, reusable schema nodes ("definitions"). */
  type Definitions = map<string, SchemaType>

  /** What reflecting one Go type yields: its own node and the definitions it needs. */
  datatype Fragment = Fragment(top: SchemaType, definitions: Definitions)

  /** A node with every keyword absent. */
  const EmptyType := SchemaType("", "", None, None, [], [], "")

  /** A node `{"$ref": "#/definitions/<name>"}`. */
  function RefTo(name: string): SchemaType
  {
    EmptyType.(ref := "#/definitions/" + name)
  }

  /** A node `{"type": "<tag>"}`. */
  function OfType(tag: string): SchemaType
  {
    EmptyType.(typeTag := tag)
  }
}
