/**
 * Reading a JSON Schema from a JSON value
 * (`modules/json-schema/src/schema/from_syntax.rs`).  Every keyword is
 * taken out of the schema object in a fixed order and the first keyword
 * whose value has the wrong shape gives the error.  Which strings are IRIs
 * and IRI references is given.  An object with several entries for the
 * same key is read through its first entry.
 */
module JsonSchemaSyntax {
  import opened Wrappers
  import opened Json
  import opened JsonSchemaValidation
  import opened JsonSchemas

  datatype Error =
    | InvalidSchema | InvalidUri | InvalidUriRef | InvalidType
    | NotABoolean | NotANumber | NotAPositiveInteger | NotAString
    | NotAnArray | NotAnObject | UnknownFormat

  /** The IRIs and IRI references the reader accepts. */
  datatype Syntax = Syntax(isIri: string -> bool, isIriRef: string -> bool)

  // Reading values of one shape.

  function TryBool(v: Value): (r: Result<bool, Error>)
    ensures r.Success? <==> v.Boolean?
    ensures r.Success? ==> r.value == v.b
    ensures r.Failure? ==> r.error == NotABoolean
  {
    match v
    case Boolean(b) => Success(b)
    case _ => Failure(NotABoolean)
  }

  function TryNumber(v: Value): (r: Result<Number, Error>)
    ensures r.Success? <==> v.Num?
    ensures r.Success? ==> r.value == v.n
    ensures r.Failure? ==> r.error == NotANumber
  {
    match v
    case Num(n) => Success(n)
    case _ => Failure(NotANumber)
  }

  /** `try_into_u64`: a number that is no `u64` is not a positive
    * integer; anything else is not a number. */
  function TryU64(v: Value): (r: Result<nat, Error>)
    ensures r.Success? <==> v.Num? && v.n.IntegerNumber? && 0 <= v.n.i < U64Limit
    ensures r.Success? ==> r.value == v.n.i
    ensures r.Failure? ==> r.error == (if v.Num? then NotAPositiveInteger else NotANumber)
  {
    var n :- TryNumber(v);
    match AsU64(n)
    case Some(u) => Success(u)
    case None => Failure(NotAPositiveInteger)
  }

  function TryString(v: Value): (r: Result<string, Error>)
    ensures r.Success? <==> v.Str?
    ensures r.Success? ==> r.value == v.s
    ensures r.Failure? ==> r.error == NotAString
  {
    match v
    case Str(s) => Success(s)
    case _ => Failure(NotAString)
  }

  function TryArray(v: Value): (r: Result<seq<Value>, Error>)
    ensures r.Success? <==> v.Array?
    ensures r.Success? ==> r.value == v.items
    ensures r.Failure? ==> r.error == NotAnArray
  {
    match v
    case Array(items) => Success(items)
    case _ => Failure(NotAnArray)
  }

  function TryObject(v: Value): (r: Result<seq<Member>, Error>)
    ensures r.Success? <==> v.Object?
    ensures r.Success? ==> r.value == v.members
    ensures r.Failure? ==> r.error == NotAnObject
  {
    match v
    case Object(ms) => Success(ms)
    case _ => Failure(NotAnObject)
  }

  /** `try_into_uri`: a string that is an IRI. */
  function TryUri(v: Value, c: Syntax): (r: Result<string, Error>)
    ensures r.Success? <==> v.Str? && c.isIri(v.s)
    ensures r.Success? ==> r.value == v.s
    ensures r.Failure? ==> r.error == (if v.Str? then InvalidUri else NotAString)
  {
    var s :- TryString(v);
    if c.isIri(s) then Success(s) else Failure(InvalidUri)
  }

  /** `try_into_string_array`: an array of strings. */
  function TryStrings(items: seq<Value>): (r: Result<seq<string>, Error>)
    ensures r.Success? <==> forall i :: 0 <= i < |items| ==> items[i].Str?
    ensures r.Success? ==> |r.value| == |items| && forall i :: 0 <= i < |items| ==> r.value[i] == items[i].s
    ensures r.Failure? ==> r.error == NotAString
  {
    if |items| == 0 then Success([])
    else
      var s :- TryString(items[0]);
      var rest :- TryStrings(items[1..]);
      Success([s] + rest)
  }

  function TryStringArray(v: Value): (r: Result<seq<string>, Error>)
    ensures r.Success? <==> v.Array? && forall i :: 0 <= i < |v.items| ==> v.items[i].Str?
    ensures r.Success? ==> |r.value| == |v.items| && forall i :: 0 <= i < |v.items| ==> r.value[i] == v.items[i].s
    ensures !v.Array? ==> r == Failure(NotAnArray)
  {
    var items :- TryArray(v);
    TryStrings(items)
  }

  /** Reads the value of a key with `read`, when the key is there. */
  function Optional<T>(ms: seq<Member>, key: string, read: Value -> Result<T, Error>): (r: Result<Option<T>, Error>)
    ensures !HasKey(ms, key) ==> r == Success(None)
    ensures HasKey(ms, key) ==> r == (match read(Get(ms, key).value)
                                      case Success(t) => Success(Some(t))
                                      case Failure(e) => Failure(e))
  {
    match Get(ms, key)
    case None => Success(None)
    case Some(v) =>
      var t :- read(v);
      Success(Some(t))
  }

  // `type` and `format`.

  /** The name of an instance type in the `type` keyword. */
  function TypeName(t: Type): string {
    match t
    case NullType => "null"
    case BooleanType => "boolean"
    case NumberType => "number"
    case IntegerType => "integer"
    case StringType => "string"
    case ArrayType => "array"
    case ObjectType => "object"
  }

  /** `Type::try_from`: one of the seven type names. */
  function ReadType(v: Value): (r: Result<Type, Error>)
    ensures !v.Str? ==> r == Failure(NotAString)
    ensures v.Str? && r.Failure? ==> r.error == InvalidType
  {
    var s :- TryString(v);
    if s == "null" then Success(NullType)
    else if s == "boolean" then Success(BooleanType)
    else if s == "number" then Success(NumberType)
    else if s == "integer" then Success(IntegerType)
    else if s == "string" then Success(StringType)
    else if s == "array" then Success(ArrayType)
    else if s == "object" then Success(ObjectType)
    else Failure(InvalidType)
  }

  /** Each type is read back from its name, and a string is read as a type
    * only when it is that type's name. */
  lemma ReadTypeRoundTrip(t: Type, s: string)
    ensures ReadType(Str(TypeName(t))) == Success(t)
    ensures ReadType(Str(s)).Success? ==> s == TypeName(ReadType(Str(s)).value)
  {
  }

  /** The name of a format in the `format` keyword. */
  function FormatName(f: Format): string {
    match f
    case DateTime => "date-time"
    case Date => "date"
    case Time => "time"
    case Duration => "duration"
    case Email => "email"
    case IdnEmail => "idn-email"
    case Hostname => "hostname"
    case IdnHostname => "idn-hostname"
    case Ipv4 => "ipv4"
    case Ipv6 => "ipv6"
    case Uri => "uri"
    case UriReference => "uri-reference"
    case Iri => "iri"
    case IriReference => "iri-reference"
    case Uuid => "uuid"
    case UriTemplate => "uri-template"
    case JsonPointer => "json-pointer"
    case RelativeJsonPointer => "relative-json-pointer"
    case Regex => "regex"
  }

  /** `Format::try_from`: one of the nineteen format names. */
  function ReadFormat(v: Value): (r: Result<Format, Error>)
    ensures !v.Str? ==> r == Failure(NotAString)
    ensures v.Str? && r.Failure? ==> r.error == UnknownFormat
  {
    var s :- TryString(v);
    match s
    case "date-time" => Success(DateTime)
    case "date" => Success(Date)
    case "time" => Success(Time)
    case "duration" => Success(Duration)
    case "email" => Success(Email)
    case "idn-email" => Success(IdnEmail)
    case "hostname" => Success(Hostname)
    case "idn-hostname" => Success(IdnHostname)
    case "ipv4" => Success(Ipv4)
    case "ipv6" => Success(Ipv6)
    case "uri" => Success(Uri)
    case "uri-reference" => Success(UriReference)
    case "iri" => Success(Iri)
    case "iri-reference" => Success(IriReference)
    case "uuid" => Success(Uuid)
    case "uri-template" => Success(UriTemplate)
    case "json-pointer" => Success(JsonPointer)
    case "relative-json-pointer" => Success(RelativeJsonPointer)
    case "regex" => Success(Regex)
    case _ => Failure(UnknownFormat)
  }

  /** Each format is read back from its name, and a string is read as a
    * format only when it is that format's name. */
  lemma ReadFormatRoundTrip(f: Format, s: string)
    ensures ReadFormat(Str(FormatName(f))) == Success(f)
    ensures ReadFormat(Str(s)).Success? ==> s == FormatName(ReadFormat(Str(s)).value)
  {
    ReadFormatName(f);
    FormatNameRead(s);
  }

  /** Each format is read back from its name. */
  lemma ReadFormatName(f: Format)
    ensures ReadFormat(Str(FormatName(f))) == Success(f)
  {
  }

  /** A string is read as a format only when it is that format's name. */
  lemma FormatNameRead(s: string)
    ensures ReadFormat(Str(s)).Success? ==> s == FormatName(ReadFormat(Str(s)).value)
  {
  }

  // Meta data and meta schema.

  /** `read_meta_data`. */
  function ReadMetaData(ms: seq<Member>): (r: Result<MetaData, Error>)
    ensures r.Success? ==> (r.value.title.Some? <==> HasKey(ms, "title"))
    ensures r.Success? ==> (r.value.default.Some? <==> HasKey(ms, "default"))
    ensures r.Success? ==> (r.value.examples.Some? <==> HasKey(ms, "examples"))
    ensures (forall j :: 0 <= j < |ms| ==> ms[j].key !in MetaDataKeys) ==> r == Success(NoMetaData)
  {
    var title :- Optional(ms, "title", TryString);
    var description :- Optional(ms, "description", TryString);
    var default := Get(ms, "default");
    var deprecated :- Optional(ms, "deprecated", TryBool);
    var readOnly :- Optional(ms, "readOnly", TryBool);
    var writeOnly :- Optional(ms, "writeOnly", TryBool);
    var examples :- Optional(ms, "examples", TryArray);
    Success(MetaData(title, description, default, deprecated, readOnly, writeOnly, examples))
  }

  const MetaDataKeys := {"title", "description", "default", "deprecated", "readOnly", "writeOnly", "examples"}

  /** The `$vocabulary` entries from the `i`-th on, added to `acc`: each
    * key must be an IRI and each value a boolean. */
  function ReadVocabulary(ms: seq<Member>, i: nat, acc: map<string, bool>, c: Syntax): (r: Result<map<string, bool>, Error>)
    requires i <= |ms|
    ensures r.Success? ==> forall j :: i <= j < |ms| ==> ms[j].key in r.value && c.isIri(ms[j].key)
    ensures r.Success? ==> acc.Keys <= r.value.Keys
    decreases |ms| - i
  {
    if i == |ms| then Success(acc)
    else
      var _ :- if c.isIri(ms[i].key) then Success(()) else Failure(InvalidUriRef);
      var b :- TryBool(ms[i].value);
      ReadVocabulary(ms, i + 1, acc[ms[i].key := b], c)
  }

  /** `read_meta_schema`. */
  function ReadMetaSchema(ms: seq<Member>, c: Syntax): (r: Result<MetaSchema, Error>)
    ensures r.Success? ==> (r.value.schema.Some? <==> HasKey(ms, "$schema"))
    ensures r.Success? ==> (r.value.vocabulary.Some? <==> HasKey(ms, "$vocabulary"))
  {
    var schema :- Optional(ms, "$schema", v => TryUri(v, c));
    var vocabulary :- Optional(ms, "$vocabulary", v => match TryObject(v)
                                                     case Success(entries) => ReadVocabulary(entries, 0, map[], c)
                                                     case Failure(e) => Failure(e));
    Success(MetaSchema(schema, vocabulary))
  }

  // Validation.

  /** The types listed in an array under `type`. */
  function ReadTypes(items: seq<Value>): (r: Result<seq<Type>, Error>)
    ensures r.Success? ==> |r.value| == |items|
    ensures r.Success? ==> forall i :: 0 <= i < |items| ==> ReadType(items[i]) == Success(r.value[i])
  {
    if |items| == 0 then Success([])
    else
      var t :- ReadType(items[0]);
      var rest :- ReadTypes(items[1..]);
      Success([t] + rest)
  }

  /** The value of `type`: an array of type names, or a single one. */
  function ReadTypeValue(v: Value): (r: Result<seq<Type>, Error>)
    ensures !v.Array? ==> r == (match ReadType(v) case Success(t) => Success([t]) case Failure(e) => Failure(e))
    ensures v.Array? ==> r == ReadTypes(v.items)
  {
    match v
    case Array(items) => ReadTypes(items)
    case _ =>
      var t :- ReadType(v);
      Success([t])
  }

  /** `read_any_validation`. */
  function ReadAnyValidation(ms: seq<Member>): (r: Result<AnyValidation, Error>)
    ensures r.Success? ==> (r.value.ty.Some? <==> HasKey(ms, "type"))
    ensures r.Success? ==> r.value.cnst == Get(ms, "const")
  {
    var ty :- Optional(ms, "type", ReadTypeValue);
    var enm :- Optional(ms, "enum", TryArray);
    Success(AnyValidation(ty, enm, Get(ms, "const")))
  }

  /** `read_numeric_validation`. */
  function ReadNumericValidation(ms: seq<Member>): (r: Result<NumericValidation, Error>)
    ensures r.Success? ==> (r.value.maximum.Some? <==> HasKey(ms, "maximum"))
    ensures r.Success? ==> (r.value.minimum.Some? <==> HasKey(ms, "minimum"))
  {
    var multipleOf :- Optional(ms, "multipleOf", TryNumber);
    var maximum :- Optional(ms, "maximum", TryNumber);
    var exclusiveMaximum :- Optional(ms, "exclusiveMaximum", TryNumber);
    var minimum :- Optional(ms, "minimum", TryNumber);
    var exclusiveMinimum :- Optional(ms, "exclusiveMinimum", TryNumber);
    Success(NumericValidation(multipleOf, maximum, exclusiveMaximum, minimum, exclusiveMinimum))
  }

  /** `read_string_validation`. */
  function ReadStringValidation(ms: seq<Member>): (r: Result<StringValidation, Error>)
    ensures r.Success? ==> (r.value.maxLength.Some? <==> HasKey(ms, "maxLength"))
    ensures r.Success? ==> (r.value.pattern.Some? <==> HasKey(ms, "pattern"))
  {
    var maxLength :- Optional(ms, "maxLength", TryU64);
    var minLength :- Optional(ms, "minLength", TryU64);
    var pattern :- Optional(ms, "pattern", TryString);
    Success(StringValidation(maxLength, minLength, pattern))
  }

  /** `read_array_validation`. */
  function ReadArrayValidation(ms: seq<Member>): (r: Result<ArrayValidation, Error>)
    ensures r.Success? ==> (r.value.uniqueItems.Some? <==> HasKey(ms, "uniqueItems"))
    ensures r.Success? ==> (r.value.minItems.Some? <==> HasKey(ms, "minItems"))
  {
    var maxItems :- Optional(ms, "maxItems", TryU64);
    var minItems :- Optional(ms, "minItems", TryU64);
    var uniqueItems :- Optional(ms, "uniqueItems", TryBool);
    var maxContains :- Optional(ms, "maxContains", TryU64);
    var minContains :- Optional(ms, "minContains", TryU64);
    Success(ArrayValidation(maxItems, minItems, uniqueItems, maxContains, minContains))
  }

  /** The `dependentRequired` entries from the `i`-th on. */
  function ReadDependentRequired(ms: seq<Member>, i: nat, acc: map<string, seq<string>>): (r: Result<map<string, seq<string>>, Error>)
    requires i <= |ms|
    ensures r.Success? ==> acc.Keys <= r.value.Keys
    ensures r.Success? ==> forall j :: i <= j < |ms| ==> ms[j].key in r.value
    decreases |ms| - i
  {
    if i == |ms| then Success(acc)
    else
      var names :- TryStringArray(ms[i].value);
      ReadDependentRequired(ms, i + 1, acc[ms[i].key := names])
  }

  /** `read_object_validation`. */
  function ReadObjectValidation(ms: seq<Member>): (r: Result<ObjectValidation, Error>)
    ensures r.Success? ==> (r.value.required.Some? <==> HasKey(ms, "required"))
  {
    var maxProperties :- Optional(ms, "maxProperties", TryU64);
    var minProperties :- Optional(ms, "minProperties", TryU64);
    var required :- Optional(ms, "required", TryStringArray);
    var dependentRequired :- Optional(ms, "dependentRequired", v => match TryObject(v)
                                                                   case Success(entries) => ReadDependentRequired(entries, 0, map[])
                                                                   case Failure(e) => Failure(e));
    Success(ObjectValidation(maxProperties, minProperties, required, dependentRequired))
  }

  /** `read_validation`. */
  function ReadValidation(ms: seq<Member>): (r: Result<Validation, Error>)
    ensures r.Success? ==> (r.value.format.Some? <==> HasKey(ms, "format"))
    ensures r.Success? ==> r.value.any.cnst == Get(ms, "const")
  {
    var any :- ReadAnyValidation(ms);
    var numeric :- ReadNumericValidation(ms);
    var str :- ReadStringValidation(ms);
    var arr :- ReadArrayValidation(ms);
    var obj :- ReadObjectValidation(ms);
    var format :- Optional(ms, "format", ReadFormat);
    Success(Validation(any, numeric, str, arr, obj, format))
  }

  // Schemas.

  /** `Schema::try_from`: `true` and `false` are the boolean schemas; an
    * object with `$ref` is a reference whatever else it holds, then one
    * with `$dynamicRef`; any other object is a regular schema; any other
    * value is not a schema. */
  function TrySchema(v: Value, c: Syntax): (r: Result<Schema, Error>)
    ensures v.Boolean? ==> r == Success(BooleanSchema(v.b))
    ensures !v.Boolean? && !v.Object? ==> r == Failure(InvalidSchema)
    ensures v.Object? && HasKey(v.members, "$ref") && r.Success? ==> r.value.RefSchema?
    ensures v.Object? && !HasKey(v.members, "$ref") && HasKey(v.members, "$dynamicRef") && r.Success? ==> r.value.DynamicRefSchema?
    ensures r.Success? && r.value.Regular? ==> v.Object? && !HasKey(v.members, "$ref") && !HasKey(v.members, "$dynamicRef")
    decreases v, 3, 0
  {
    if v.Boolean? then Success(BooleanSchema(v.b))
    else if !v.Object? then Failure(InvalidSchema)
    else
      var ms := v.members;
      match Get(ms, "$ref")
      case Some(target) =>
        var s :- TryString(target);
        var _ :- if c.isIriRef(s) then Success(()) else Failure(InvalidUriRef);
        var meta :- ReadMetaData(ms);
        Success(RefSchema(s, meta))
      case None =>
        match Get(ms, "$dynamicRef")
        case Some(target) =>
          var s :- TryString(target);
          var _ :- if c.isIriRef(s) then Success(()) else Failure(InvalidUriRef);
          var meta :- ReadMetaData(ms);
          Success(DynamicRefSchema(s, meta))
        case None => ReadRegularSchema(v, c)
  }

  /** A schema object with neither `$ref` nor `$dynamicRef`: its meta-schema,
    * metadata, identifiers, definitions, description and validation. */
  function ReadRegularSchema(v: Value, c: Syntax): (r: Result<Schema, Error>)
    requires v.Object?
    ensures r.Success? ==> r.value.Regular?
    decreases v, 2, 0
  {
    var ms := v.members;
    var metaSchema :- ReadMetaSchema(ms, c);
    var metaData :- ReadMetaData(ms);
    var id :- match Optional(ms, "$id", x => TryUri(x, c))
              case Success(o) => Success(o)
              case Failure(_) => Failure(InvalidUri);
    var anchor :- Optional(ms, "$anchor", TryString);
    var dynamicAnchor :- Optional(ms, "$dynamicAnchor", TryString);
    var defs :- OptionalSchemaMap(v, "$defs", c);
    var desc :- ReadDescriptionAsWritten(v, c);
    var validation :- ReadValidation(ms);
    Success(Regular(RegularSchema(metaSchema, id, metaData, desc, validation, anchor, dynamicAnchor, defs)))
  }

  /** The schemas of an array, from the `i`-th on. */
  function TrySchemaItems(arr: Value, i: nat, c: Syntax): (r: Result<seq<Schema>, Error>)
    requires arr.Array? && i <= |arr.items|
    ensures r.Success? ==> |r.value| == |arr.items| - i
    decreases arr, 2, |arr.items| - i
  {
    if i == |arr.items| then Success([])
    else
      var s :- TrySchema(arr.items[i], c);
      var rest :- TrySchemaItems(arr, i + 1, c);
      Success([s] + rest)
  }

  /** Every item of the array from the `i`-th on is a schema. */
  ghost predicate AllSchemas(arr: Value, i: nat, c: Syntax)
    requires arr.Array? && i <= |arr.items|
    decreases |arr.items| - i
  {
    i == |arr.items| || (TrySchema(arr.items[i], c).Success? && AllSchemas(arr, i + 1, c))
  }

  /** The schemas the items from the `i`-th on read as, in order. */
  ghost function SchemasFrom(arr: Value, i: nat, c: Syntax): (r: seq<Schema>)
    requires arr.Array? && i <= |arr.items| && AllSchemas(arr, i, c)
    ensures |r| == |arr.items| - i
    decreases |arr.items| - i
  {
    if i == |arr.items| then [] else [TrySchema(arr.items[i], c).value] + SchemasFrom(arr, i + 1, c)
  }

  /** An array whose items are all schemas reads as those schemas, in
    * order. */
  lemma {:induction false} TrySchemaItemsAll(arr: Value, i: nat, c: Syntax)
    requires arr.Array? && i <= |arr.items| && AllSchemas(arr, i, c)
    ensures TrySchemaItems(arr, i, c) == Success(SchemasFrom(arr, i, c))
    decreases |arr.items| - i
  {
    if i < |arr.items| {
      TrySchemaItemsAll(arr, i + 1, c);
    }
  }

  /** The items from the `i`-th on are all schemas exactly when each one
    * is. */
  lemma {:induction false} AllSchemasIndex(arr: Value, i: nat, c: Syntax)
    requires arr.Array? && i <= |arr.items|
    ensures AllSchemas(arr, i, c) <==> forall j :: i <= j < |arr.items| ==> TrySchema(arr.items[j], c).Success?
    decreases |arr.items| - i
  {
    if i < |arr.items| {
      AllSchemasIndex(arr, i + 1, c);
    }
  }

  /** The `j`-th item reads as the `(j - i)`-th of the schemas from the
    * `i`-th on. */
  lemma {:induction false} SchemasFromIndex(arr: Value, i: nat, c: Syntax, j: nat)
    requires arr.Array? && i <= j < |arr.items| && AllSchemas(arr, i, c)
    ensures TrySchema(arr.items[j], c).Success?
    ensures SchemasFrom(arr, i, c)[j - i] == TrySchema(arr.items[j], c).value
    decreases j - i
  {
    if i < j {
      SchemasFromIndex(arr, i + 1, c, j);
      assert SchemasFrom(arr, i, c)[j - i] == SchemasFrom(arr, i + 1, c)[j - (i + 1)];
    }
  }

  /** The schemas of an object's entries, from the `i`-th on, added to
    * `acc`; a later entry replaces an earlier one with the same key. */
  function TrySchemaMembers(obj: Value, i: nat, acc: map<string, Schema>, c: Syntax): (r: Result<map<string, Schema>, Error>)
    requires obj.Object? && i <= |obj.members|
    ensures r.Success? ==> acc.Keys <= r.value.Keys
    ensures r.Success? ==> forall j :: i <= j < |obj.members| ==> obj.members[j].key in r.value
    decreases obj, 2, |obj.members| - i
  {
    if i == |obj.members| then Success(acc)
    else
      var s :- TrySchema(obj.members[i].value, c);
      TrySchemaMembers(obj, i + 1, acc[obj.members[i].key := s], c)
  }

  /** A schema under a key of the object `v`, when the key is there. */
  function OptionalSchema(v: Value, key: string, c: Syntax): (r: Result<Option<Schema>, Error>)
    requires v.Object?
    ensures !HasKey(v.members, key) ==> r == Success(None)
    ensures r.Success? && HasKey(v.members, key) ==> r.value.Some?
    decreases v, 1, 0
  {
    match FindKey(v.members, key)
    case None => Success(None)
    case Some(k) =>
      var s :- TrySchema(v.members[k].value, c);
      Success(Some(s))
  }

  /** An array of schemas under a key of the object `v`. */
  function OptionalSchemaArray(v: Value, key: string, c: Syntax): (r: Result<Option<seq<Schema>>, Error>)
    requires v.Object?
    ensures !HasKey(v.members, key) ==> r == Success(None)
    ensures r.Success? && HasKey(v.members, key) ==> r.value.Some?
    decreases v, 1, 0
  {
    match FindKey(v.members, key)
    case None => Success(None)
    case Some(k) =>
      var a := v.members[k].value;
      if a.Array? then
        var s :- TrySchemaItems(a, 0, c);
        Success(Some(s))
      else Failure(NotAnArray)
  }

  /** An object of schemas under a key of the object `v`. */
  function OptionalSchemaMap(v: Value, key: string, c: Syntax): (r: Result<Option<map<string, Schema>>, Error>)
    requires v.Object?
    ensures !HasKey(v.members, key) ==> r == Success(None)
    ensures r.Success? && HasKey(v.members, key) ==> r.value.Some?
    decreases v, 1, 0
  {
    match FindKey(v.members, key)
    case None => Success(None)
    case Some(k) =>
      var o := v.members[k].value;
      if o.Object? then
        var s :- TrySchemaMembers(o, 0, map[], c);
        Success(Some(s))
      else Failure(NotAnObject)
  }

  /** `read_string_encoded_data_schema`. */
  function ReadStringEncodedData(v: Value, c: Syntax): (r: Result<StringEncodedData, Error>)
    requires v.Object?
    decreases v, 1, 1
  {
    var contentEncoding :- Optional(v.members, "contentEncoding", TryString);
    var contentMediaType :- Optional(v.members, "contentMediaType", TryString);
    var contentSchema :- OptionalSchema(v, "contentSchema", c);
    Success(StringEncodedData(contentEncoding, contentMediaType, contentSchema))
  }

  /** `read_array_schema`. */
  function ReadArraySchema(v: Value, c: Syntax): (r: Result<ArraySchema, Error>)
    requires v.Object?
    decreases v, 1, 1
  {
    var prefixItems :- OptionalSchemaArray(v, "prefixItems", c);
    var items :- OptionalSchema(v, "items", c);
    var contains :- OptionalSchema(v, "contains", c);
    var unevaluatedItems :- OptionalSchema(v, "unevaluatedItems", c);
    Success(ArraySchema(prefixItems, items, contains, unevaluatedItems))
  }

  /** `read_object_schema`. */
  function ReadObjectSchema(v: Value, c: Syntax): (r: Result<ObjectSchema, Error>)
    requires v.Object?
    decreases v, 1, 1
  {
    var properties :- OptionalSchemaMap(v, "properties", c);
    var patternProperties :- OptionalSchemaMap(v, "patternProperties", c);
    var additionalProperties :- OptionalSchema(v, "additionalProperties", c);
    var dependentSchemas :- OptionalSchemaMap(v, "dependentSchemas", c);
    var unevaluatedProperties :- OptionalSchema(v, "unevaluatedProperties", c);
    Success(ObjectSchema(properties, patternProperties, additionalProperties, dependentSchemas, unevaluatedProperties))
  }

  /** None of the keywords that make a description something other than a
    * definition: `allOf`, `anyOf`, `oneOf`, `not`, `if`. */
  predicate NoDescriptionKey(ms: seq<Member>) {
    !HasKey(ms, "allOf") && !HasKey(ms, "anyOf") && !HasKey(ms, "oneOf") && !HasKey(ms, "not") && !HasKey(ms, "if")
  }

  /** `read_description`, with the key its `if` branch reads the
    * alternative from: `allOf` wins over `anyOf`, which wins over `oneOf`,
    * then `not`, then `if`; with none of them the schema is a
    * definition. */
  function ReadDescriptionWith(v: Value, c: Syntax, elseKey: string): (r: Result<Description, Error>)
    requires v.Object?
    ensures HasKey(v.members, "allOf") ==> r.Success? ==> r.value.AllOf?
    ensures !HasKey(v.members, "allOf") && HasKey(v.members, "anyOf") ==> r.Success? ==> r.value.AnyOf?
    ensures !HasKey(v.members, "allOf") && !HasKey(v.members, "anyOf") && HasKey(v.members, "oneOf") ==>
      r.Success? ==> r.value.OneOf?
    ensures (!HasKey(v.members, "allOf") && !HasKey(v.members, "anyOf") && !HasKey(v.members, "oneOf")
             && HasKey(v.members, "not")) ==> r.Success? ==> r.value.Not?
    ensures r.Success? && r.value.Definition? <==>
      r.Success? && NoDescriptionKey(v.members)
    ensures r.Success? && r.value.IfThenElse? ==> (r.value.elseSchema.Some? <==> HasKey(v.members, elseKey))
    decreases v, 1, 2
  {
    var ms := v.members;
    if HasKey(ms, "allOf") then
      var s :- OptionalSchemaArray(v, "allOf", c);
      Success(AllOf(s.value))
    else if HasKey(ms, "anyOf") then
      var s :- OptionalSchemaArray(v, "anyOf", c);
      Success(AnyOf(s.value))
    else if HasKey(ms, "oneOf") then
      var s :- OptionalSchemaArray(v, "oneOf", c);
      Success(OneOf(s.value))
    else if HasKey(ms, "not") then
      var s :- OptionalSchema(v, "not", c);
      Success(Not(s.value))
    else if HasKey(ms, "if") then
      var condition :- OptionalSchema(v, "if", c);
      var thenSchema :- OptionalSchema(v, "then", c);
      var elseSchema :- OptionalSchema(v, elseKey, c);
      Success(IfThenElse(condition.value, thenSchema, elseSchema))
    else
      var stringData :- ReadStringEncodedData(v, c);
      var arrayData :- ReadArraySchema(v, c);
      var objectData :- ReadObjectSchema(v, c);
      Success(Definition(Def(stringData, arrayData, objectData)))
  }

  /** `read_description` as written, which looks for the alternative of an
    * `if` under the key `els`. */
  function ReadDescriptionAsWritten(v: Value, c: Syntax): (r: Result<Description, Error>)
    requires v.Object?
    ensures r.Success? && r.value.IfThenElse? ==> (r.value.elseSchema.Some? <==> HasKey(v.members, "els"))
    ensures (!HasKey(v.members, "if") || HasKey(v.members, "allOf") || HasKey(v.members, "anyOf")
             || HasKey(v.members, "oneOf") || HasKey(v.members, "not")) ==> r == ReadDescriptionWith(v, c, "else")
    decreases v, 1, 3
  {
    ReadDescriptionWith(v, c, "els")
  }

  /** As written, the `else` keyword of JSON Schema is never read: the
    * alternative of `{"if": true, "else": false}` is lost. */
  lemma ElseIsLost(c: Syntax)
    ensures var v := Object([Member("if", Boolean(true)), Member("else", Boolean(false))]);
      ReadDescriptionAsWritten(v, c) == Success(IfThenElse(BooleanSchema(true), None, None))
  {
    var v := Object([Member("if", Boolean(true)), Member("else", Boolean(false))]);
    assert v.members[0].key == "if";
    assert v.members[1].key == "else";
    assert HasKey(v.members, "if");
    assert !HasKey(v.members, "els") by {
      assert "else" != "els";
    }
  }

  /** Read with the JSON Schema keyword, the alternative of an `if` is
    * there exactly when the schema has an `else`. */
  lemma ElseIsRead(c: Syntax)
    ensures var v := Object([Member("if", Boolean(true)), Member("else", Boolean(false))]);
      ReadDescriptionWith(v, c, "else") == Success(IfThenElse(BooleanSchema(true), None, Some(BooleanSchema(false))))
  {
    var v := Object([Member("if", Boolean(true)), Member("else", Boolean(false))]);
    assert v.members[0].key == "if";
    assert v.members[1].key == "else";
    assert HasKey(v.members, "if");
  }
}
