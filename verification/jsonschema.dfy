/** Schema fragments: the JSON-Schema values the translator emits. */
module JsonSchema {
  import opened Wrappers

  datatype JsonType = StringType | NumberType | BooleanType | NullType | AnyType

  /** A member of an `enum` list: the translator only ever emits strings and booleans. */
  datatype EnumValue = Str(s: string) | Bool(b: bool)

  datatype Schema =
      /** `{"$ref": target}` */
    | Ref(target: string)
      /** `{type: "array", items}` */
    | ArraySchema(items: Schema)
      /** `{oneOf: alternatives}` */
    | OneOf(alternatives: seq<Schema>)
      /** `{allOf: parts}` */
    | AllOf(parts: seq<Schema>)
      /** `{type: "object", properties, required}` */
    | ObjectSchema(properties: map<string, Schema>, required: seq<string>)
      /** `{type}` or `{type, enum}` */
    | Primitive(primitiveType: JsonType, enumValues: Option<seq<EnumValue>>)

  const DefinitionsPrefix := "#/definitions/"

  /** The reference to the definition called `name`. */
  function RefTo(name: string): Schema {
    Ref(DefinitionsPrefix + name)
  }

  /** A string schema whose `enum` lists `values` in order. */
  function StringEnum(values: seq<string>): (s: Schema)
    ensures s.Primitive? && s.primitiveType == StringType && s.enumValues.Some?
    ensures |s.enumValues.value| == |values|
    ensures forall i :: 0 <= i < |values| ==> s.enumValues.value[i] == Str(values[i])
  {
    Primitive(StringType, Some(seq(|values|, i requires 0 <= i < |values| => Str(values[i]))))
  }
}
