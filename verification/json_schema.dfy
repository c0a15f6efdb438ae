/**
 * JSON Schema documents as the JSON Schema importer reads them
 * (`modules/json-schema/src/schema.rs`): boolean schemas, `$ref` and
 * `$dynamicRef` schemas, and regular schemas with their meta data,
 * description and validation, together with the emptiness tests that
 * decide when a regular schema is only a primitive type.
 */
module JsonSchemas {
  import opened Wrappers
  import Json
  import opened JsonSchemaValidation

  /** `OneOrMany`. */
  datatype OneOrMany<T> = One(one: T) | Many(many: seq<T>)

  /** `OneOrMany::into_vec`. */
  function IntoVec<T>(o: OneOrMany<T>): (r: seq<T>)
    ensures o.One? ==> r == [o.one]
    ensures o.Many? ==> r == o.many
  {
    match o
    case One(t) => [t]
    case Many(v) => v
  }

  /** `OneOrMany::as_slice`: the same items, borrowed. */
  function AsSlice<T>(o: OneOrMany<T>): (r: seq<T>)
    ensures o.One? ==> |r| == 1 && r[0] == o.one
    ensures o.Many? ==> r == o.many
  {
    match o
    case One(t) => [t]
    case Many(v) => v
  }

  /** Borrowing and converting see the same items. */
  lemma AsSliceIntoVec<T>(o: OneOrMany<T>)
    ensures AsSlice(o) == IntoVec(o)
  {
  }

  /** The meta-data annotations. */
  datatype MetaData = MetaData(
    title: Option<string>,
    description: Option<string>,
    default: Option<Json.Value>,
    deprecated: Option<bool>,
    readOnly: Option<bool>,
    writeOnly: Option<bool>,
    examples: Option<seq<Json.Value>>)

  const NoMetaData := MetaData(None, None, None, None, None, None, None)

  /** `MetaData::is_empty`. */
  predicate MetaDataIsEmpty(m: MetaData) {
    m.title.None? && m.description.None? && m.default.None? && m.deprecated.None?
    && m.readOnly.None? && m.writeOnly.None? && m.examples.None?
  }

  /** `$schema` and `$vocabulary`. */
  datatype MetaSchema = MetaSchema(schema: Option<string>, vocabulary: Option<map<string, bool>>)

  /** `MetaSchema::is_empty`. */
  predicate MetaSchemaIsEmpty(m: MetaSchema) {
    m.schema.None? && m.vocabulary.None?
  }

  datatype Schema =
    | BooleanSchema(b: bool)
    | RefSchema(target: string, refMetaData: MetaData)
    | DynamicRefSchema(dynamicTarget: string, dynamicMetaData: MetaData)
    | Regular(regular: RegularSchema)

  datatype RegularSchema = RegularSchema(
    metaSchema: MetaSchema,
    id: Option<string>,
    metaData: MetaData,
    desc: Description,
    validation: Validation,
    anchor: Option<string>,
    dynamicAnchor: Option<string>,
    defs: Option<map<string, Schema>>)

  /** How a schema is built from others, or its own definition. */
  datatype Description =
    | AllOf(allOf: seq<Schema>)
    | AnyOf(anyOf: seq<Schema>)
    | OneOf(oneOf: seq<Schema>)
    | Not(not: Schema)
    | IfThenElse(condition: Schema, thenSchema: Option<Schema>, elseSchema: Option<Schema>)
    | Definition(def: Definition)

  datatype Definition = Def(stringData: StringEncodedData, arrayData: ArraySchema, objectData: ObjectSchema)

  datatype StringEncodedData = StringEncodedData(
    contentEncoding: Option<string>,
    contentMediaType: Option<string>,
    contentSchema: Option<Schema>)

  datatype ArraySchema = ArraySchema(
    prefixItems: Option<seq<Schema>>,
    items: Option<Schema>,
    contains: Option<Schema>,
    unevaluatedItems: Option<Schema>)

  datatype ObjectSchema = ObjectSchema(
    properties: Option<map<string, Schema>>,
    patternProperties: Option<map<string, Schema>>,
    additionalProperties: Option<Schema>,
    dependentSchemas: Option<map<string, Schema>>,
    unevaluatedProperties: Option<Schema>)

  const NoStringData := StringEncodedData(None, None, None)
  const NoArraySchema := ArraySchema(None, None, None, None)
  const NoObjectSchema := ObjectSchema(None, None, None, None, None)

  predicate StringDataIsEmpty(s: StringEncodedData) {
    s.contentEncoding.None? && s.contentMediaType.None? && s.contentSchema.None?
  }

  predicate ArraySchemaIsEmpty(a: ArraySchema) {
    a.prefixItems.None? && a.items.None? && a.contains.None? && a.unevaluatedItems.None?
  }

  predicate ObjectSchemaIsEmpty(o: ObjectSchema) {
    o.properties.None? && o.patternProperties.None? && o.additionalProperties.None?
    && o.dependentSchemas.None? && o.unevaluatedProperties.None?
  }

  /** `Definition::is_empty`. */
  predicate DefinitionIsEmpty(d: Definition) {
    StringDataIsEmpty(d.stringData) && ArraySchemaIsEmpty(d.arrayData) && ObjectSchemaIsEmpty(d.objectData)
  }

  /** `Description::is_empty`: only a definition can be empty. */
  predicate DescriptionIsEmpty(d: Description) {
    match d
    case Definition(def) => DefinitionIsEmpty(def)
    case _ => false
  }

  /** The groups are empty exactly when they have no keyword, and a
    * description is empty exactly when it is the definition with none. */
  lemma IsEmptyMeaning(m: MetaData, d: Description)
    ensures MetaDataIsEmpty(m) <==> m == NoMetaData
    ensures DescriptionIsEmpty(d) <==> d == Definition(Def(NoStringData, NoArraySchema, NoObjectSchema))
  {
  }

  /** `RegularSchema::is_primitive`: the schema describes nothing of its
    * own and only validates like a primitive value.  Its meta data,
    * identifier, anchors and definitions do not matter. */
  predicate IsPrimitiveSchema(s: RegularSchema) {
    DescriptionIsEmpty(s.desc) && IsPrimitive(s.validation)
  }

  /** A schema combining others, negating one or branching on one is never
    * primitive, and the parts outside the description and validation do
    * not matter. */
  lemma IsPrimitiveSchemaMeaning(s: RegularSchema, m: MetaData, id: Option<string>)
    ensures !s.desc.Definition? ==> !IsPrimitiveSchema(s)
    ensures IsPrimitiveSchema(s) == IsPrimitiveSchema(s.(metaData := m, id := id))
    ensures IsPrimitiveSchema(s) <==>
      s.desc == Definition(Def(NoStringData, NoArraySchema, NoObjectSchema)) && IsPrimitive(s.validation)
  {
    IsEmptyMeaning(s.metaData, s.desc);
  }
}
