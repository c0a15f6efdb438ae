/**
 * The validation keywords of a JSON Schema (`json-schema/src/schema/validation.rs`):
 * the keywords for any instance, numbers, strings, arrays and objects, and
 * the `format` annotation, with when each group counts as empty and when a
 * schema's validation is that of a primitive value.
 */
module JsonSchemaValidation {
  import opened Wrappers
  import Json

  /** The seven instance types of the `type` keyword. */
  datatype Type = NullType | BooleanType | NumberType | IntegerType | StringType | ArrayType | ObjectType

  /** The `format` values. */
  datatype Format =
    | DateTime | Date | Time | Duration | Email | IdnEmail | Hostname | IdnHostname
    | Ipv4 | Ipv6 | Uri | UriReference | Iri | IriReference | Uuid | UriTemplate
    | JsonPointer | RelativeJsonPointer | Regex

  /** `type`, `enum` and `const`. */
  datatype AnyValidation = AnyValidation(ty: Option<seq<Type>>, enm: Option<seq<Json.Value>>, cnst: Option<Json.Value>)

  datatype NumericValidation = NumericValidation(
    multipleOf: Option<Json.Number>,
    maximum: Option<Json.Number>,
    exclusiveMaximum: Option<Json.Number>,
    minimum: Option<Json.Number>,
    exclusiveMinimum: Option<Json.Number>)

  datatype StringValidation = StringValidation(maxLength: Option<nat>, minLength: Option<nat>, pattern: Option<string>)

  datatype ArrayValidation = ArrayValidation(
    maxItems: Option<nat>,
    minItems: Option<nat>,
    uniqueItems: Option<bool>,
    maxContains: Option<nat>,
    minContains: Option<nat>)

  datatype ObjectValidation = ObjectValidation(
    maxProperties: Option<nat>,
    minProperties: Option<nat>,
    required: Option<seq<string>>,
    dependentRequired: Option<map<string, seq<string>>>)

  datatype Validation = Validation(
    any: AnyValidation,
    numeric: NumericValidation,
    stringValidation: StringValidation,
    arrayValidation: ArrayValidation,
    objectValidation: ObjectValidation,
    format: Option<Format>)

  /** The groups with no keyword at all. */
  const NoNumeric := NumericValidation(None, None, None, None, None)
  const NoString := StringValidation(None, None, None)
  const NoArray := ArrayValidation(None, None, None, None, None)
  const NoObject := ObjectValidation(None, None, None, None)

  /** `NumericValidation::is_empty`. */
  predicate NumericIsEmpty(v: NumericValidation) {
    v.multipleOf.None? && v.maximum.None? && v.exclusiveMaximum.None? && v.minimum.None? && v.exclusiveMinimum.None?
  }

  /** `StringValidation::is_empty`. */
  predicate StringIsEmpty(v: StringValidation) {
    v.maxLength.None? && v.minLength.None? && v.pattern.None?
  }

  /** `ArrayValidation::is_empty`. */
  predicate ArrayIsEmpty(v: ArrayValidation) {
    v.maxItems.None? && v.minItems.None? && v.uniqueItems.None? && v.maxContains.None? && v.minContains.None?
  }

  /** `ObjectValidation::is_empty`. */
  predicate ObjectIsEmpty(v: ObjectValidation) {
    v.maxProperties.None? && v.minProperties.None? && v.required.None? && v.dependentRequired.None?
  }

  /** A group is empty exactly when it is the group with no keyword. */
  lemma IsEmptyMeaning(n: NumericValidation, s: StringValidation, a: ArrayValidation, o: ObjectValidation)
    ensures NumericIsEmpty(n) <==> n == NoNumeric
    ensures StringIsEmpty(s) <==> s == NoString
    ensures ArrayIsEmpty(a) <==> a == NoArray
    ensures ObjectIsEmpty(o) <==> o == NoObject
  {
  }

  /** `Validation::is_primitive`: no `const`, no `enum`, and no numeric,
    * string or array keyword.  `type`, the object keywords and `format`
    * are not looked at. */
  predicate IsPrimitive(v: Validation) {
    v.any.cnst.None? && v.any.enm.None?
    && NumericIsEmpty(v.numeric) && StringIsEmpty(v.stringValidation) && ArrayIsEmpty(v.arrayValidation)
  }

  /** Whether validation is primitive depends neither on the object
    * keywords, nor on `format`, nor on `type`, and it is primitive exactly
    * when it is the no-keyword validation in every group it looks at. */
  lemma IsPrimitiveMeaning(v: Validation, o: ObjectValidation, f: Option<Format>, ty: Option<seq<Type>>)
    ensures IsPrimitive(v) == IsPrimitive(v.(objectValidation := o, format := f, any := v.any.(ty := ty)))
    ensures IsPrimitive(v) <==>
      v.any.cnst.None? && v.any.enm.None? && v.numeric == NoNumeric && v.stringValidation == NoString && v.arrayValidation == NoArray
  {
  }
}
