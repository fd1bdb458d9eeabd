/** The Swagger 2.0 schema objects the generator writes: typed scalars,
    `$ref`s to `#/definitions/...`, arrays and objects. An optional key absent
    from the PHP array is `None`; `enum` and `required` are written only when
    non-empty, so the empty list stands for "absent". */
module Schema {

  import opened Wrappers
  import opened OrderedMap

  datatype Schema =
    | Typed(dataType: string, format: Option<string>, enumValues: seq<string>, example: Option<string>)
    | Ref(target: string)
    | ArrayOf(items: Schema, description: Option<string>)
    | Object(required: seq<string>, properties: OMap<string, Schema>)

  /** `['type' => t]`. */
  function Plain(t: string): Schema {
    Typed(t, None, [], None)
  }

  /** The `$ref` string of a reference. */
  function RefPath(target: string): string {
    "#/definitions/" + target
  }
}
