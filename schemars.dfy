/**
 The schema values the builder receives from schemars' reflection, reduced
 to what the builder inspects, and `to_yaml` over an opaque serde_yaml.
 */
module Schemars {
  import opened Prelude
  import opened Text

  /** `schemars::schema::Schema`: a boolean schema or a schema object. */
  datatype Schema = Bool(value: bool) | Object(o: SchemaObject)

  /** `SchemaObject`: `nullable` is whether its extensions have a `nullable` key,
      `description` is its metadata's description (absent when the metadata is),
      `properties` is its object validation (absent for a non-object schema),
      and `other` stands for every other part, which only serialisation reads. */
  datatype SchemaObject = SchemaObject(
    nullable: bool,
    description: Option<string>,
    properties: Option<seq<Property>>,
    other: string)

  /** One entry of an object's properties, in the map's iteration order. */
  datatype Property = Property(name: string, schema: Schema)

  /** `RootSchema`: the schema of the reflected type and the named sub-schemas it uses. */
  datatype RootSchema = RootSchema(schema: SchemaObject, definitions: map<string, Schema>)

  /** The two kinds of value the builder hands to serde_yaml. */
  datatype Serializable = SchemaValue(schema: Schema) | DefinitionsValue(definitions: map<string, Schema>)

  /** The builder's errors: `bail!` with a message, or a serde_yaml failure. */
  datatype Error = Unsupported(message: string) | YamlError

  const OnlyObjectTypeSupported := "Only object type supported"

  /** `to_yaml`: serde_yaml's text (given by `serde`, `None` when it fails) with
      every document marker `---\n` removed and then trimmed. */
  function ToYaml(serde: Serializable -> Option<string>, value: Serializable): (r: Result<string, Error>)
    ensures r.Ok? <==> serde(value).Some?
    ensures r.Err? ==> r.error == YamlError
    ensures r.Ok? ==> |r.value| == 0 || (!IsWhitespace(r.value[0]) && !IsWhitespace(r.value[|r.value| - 1]))
  {
    match serde(value)
    case None => Err(YamlError)
    case Some(text) =>
      Ok(Trim(ReplaceAll(text, "---\n", "")))
  }
}
