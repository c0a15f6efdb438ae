/**
 * Importing a JSON Schema as TreeLDR layouts
 * (`modules/json-schema/src/import.rs`): the layout kind a schema's
 * `type`, `format` and keywords call for, the primitive layout it maps to,
 * the choice between an array and a set, and the fields of an object
 * schema.  The layouts of sub-schemas are given as identifiers; blank
 * nodes are drawn from a counter.  A `todo!()` of the source is the error
 * `Unimplemented`.
 */
module JsonSchemaImport {
  import opened Wrappers
  import Json
  import opened JsonSchemaValidation
  import opened JsonSchemas
  import CoreVocab

  type Id = CoreVocab.Id

  datatype ImportError = UnsupportedType | InvalidPropertyName(name: string) | Unimplemented

  datatype LayoutKind =
    | UnknownKind | BooleanKind | IntegerKind | NumberKind | StringKind
    | ArrayOrSetKind | ArrayKind | SetKind | StructKind

  /** The information order on kinds: an unknown kind may become anything,
    * an integer a number, and an array-or-set an array or a set. */
  predicate Below(a: LayoutKind, b: LayoutKind) {
    a == b || a == UnknownKind || (a == IntegerKind && b == NumberKind)
    || (a == ArrayOrSetKind && (b == ArrayKind || b == SetKind))
  }

  /** `LayoutKind::refine` as written, which has no case for two strings. */
  function RefineAsWritten(a: LayoutKind, b: LayoutKind): (r: Result<LayoutKind, ImportError>)
    ensures r.Success? ==> Below(a, r.value) && Below(b, r.value)
    ensures r.Success? ==> forall d :: Below(a, d) && Below(b, d) ==> Below(r.value, d)
    ensures r.Failure? ==> r.error == UnsupportedType
  {
    match (a, b)
    case (UnknownKind, k) => Success(k)
    case (BooleanKind, BooleanKind) => Success(BooleanKind)
    case (IntegerKind, IntegerKind) => Success(IntegerKind)
    case (NumberKind, IntegerKind) => Success(NumberKind)
    case (NumberKind, NumberKind) => Success(NumberKind)
    case (ArrayOrSetKind, ArrayKind) => Success(ArrayKind)
    case (ArrayOrSetKind, SetKind) => Success(SetKind)
    case (ArrayOrSetKind, ArrayOrSetKind) => Success(ArrayOrSetKind)
    case (ArrayKind, ArrayKind) => Success(ArrayKind)
    case (SetKind, SetKind) => Success(SetKind)
    case (StructKind, StructKind) => Success(StructKind)
    case _ => Failure(UnsupportedType)
  }

  /** As written, a string kind cannot be refined by a string: a schema
    * with `"type": "string"` and a `format` is rejected. */
  lemma StringRefineFails()
    ensures RefineAsWritten(StringKind, StringKind) == Failure(UnsupportedType)
    ensures forall k :: k != StringKind ==> RefineAsWritten(k, k) == Success(k)
  {
  }

  /** `LayoutKind::refine` with the string case: the least kind above both,
    * when there is one the source accepts. */
  function Refine(a: LayoutKind, b: LayoutKind): (r: Result<LayoutKind, ImportError>)
    ensures r.Success? ==> Below(a, r.value) && Below(b, r.value)
    ensures r.Success? ==> forall d :: Below(a, d) && Below(b, d) ==> Below(r.value, d)
    ensures r.Failure? ==> r.error == UnsupportedType
  {
    if a == StringKind && b == StringKind then Success(StringKind) else RefineAsWritten(a, b)
  }

  /** Refining by the same kind changes nothing, refining an unknown kind
    * gives the other one, and the corrected refinement agrees with the
    * source everywhere but on two strings.  The order of the arguments
    * matters: a number refined by an integer stays a number, but an
    * integer cannot be refined by a number. */
  lemma RefineLaws(a: LayoutKind, b: LayoutKind)
    ensures Refine(a, a) == Success(a)
    ensures Refine(UnknownKind, b) == Success(b)
    ensures !(a == StringKind && b == StringKind) ==> Refine(a, b) == RefineAsWritten(a, b)
    ensures Refine(NumberKind, IntegerKind) == Success(NumberKind) && Refine(IntegerKind, NumberKind).Failure?
  {
  }

  /** The kind a `type` name calls for; `null` is not supported. */
  function KindOfType(t: Type): (r: Result<LayoutKind, ImportError>)
    ensures r.Failure? <==> t == NullType
    ensures r.Success? ==> r.value != UnknownKind
  {
    match t
    case NullType => Failure(Unimplemented)
    case BooleanType => Success(BooleanKind)
    case IntegerType => Success(IntegerKind)
    case NumberType => Success(NumberKind)
    case StringType => Success(StringKind)
    case ArrayType => Success(ArrayOrSetKind)
    case ObjectType => Success(StructKind)
  }

  /** Refines `k` by each listed type in turn. */
  function KindOfTypes(k: LayoutKind, ts: seq<Type>): (r: Result<LayoutKind, ImportError>)
    ensures r.Success? ==> Below(k, r.value)
    decreases |ts|
  {
    if |ts| == 0 then Success(k)
    else
      var t :- KindOfType(ts[0]);
      var k' :- RefineAsWritten(k, t);
      KindOfTypes(k', ts[1..])
  }

  /** Listing the same type any number of times is listing it once, except
    * that `string` listed twice is rejected. */
  lemma {:induction false} KindOfTypesRepeated(t: Type, ts: seq<Type>)
    requires t != NullType && |ts| > 0
    requires forall i :: 0 <= i < |ts| ==> ts[i] == t
    ensures t != StringType ==> KindOfTypes(UnknownKind, ts) == KindOfType(t)
    ensures t == StringType ==> KindOfTypes(UnknownKind, ts) == if |ts| == 1 then Success(StringKind) else Failure(UnsupportedType)
  {
    KindOfTypesFrom(KindOfType(t).value, ts[1..]);
  }

  lemma {:induction false} KindOfTypesFrom(k: LayoutKind, ts: seq<Type>)
    requires forall i :: 0 <= i < |ts| ==> KindOfType(ts[i]) == Success(k)
    ensures k != StringKind || ts == [] ==> KindOfTypes(k, ts) == Success(k)
    ensures k == StringKind && ts != [] ==> KindOfTypes(k, ts) == Failure(UnsupportedType)
    decreases |ts|
  {
    if |ts| > 0 {
      StringRefineFails();
      if k != StringKind {
        KindOfTypesFrom(k, ts[1..]);
      }
    }
  }

  /** The primitive layouts the import produces. */
  datatype NativeLayout =
    | NativeBoolean | NativeInteger | NativeDouble | NativeString
    | NativeDateTime | NativeDate | NativeTime | NativeUri

  /** `format_layout`: only `date-time`, `date`, `time` and `uri` have a
    * layout. */
  function FormatLayout(f: Format): (r: Result<NativeLayout, ImportError>)
    ensures r.Success? <==> f == DateTime || f == Date || f == Time || f == Uri
    ensures r.Failure? ==> r.error == Unimplemented
    ensures r.Success? ==> r.value in {NativeDateTime, NativeDate, NativeTime, NativeUri}
  {
    match f
    case DateTime => Success(NativeDateTime)
    case Date => Success(NativeDate)
    case Time => Success(NativeTime)
    case Uri => Success(NativeUri)
    case _ => Failure(Unimplemented)
  }

  /** Distinct supported formats have distinct layouts. */
  lemma FormatLayoutInjective(f: Format, g: Format)
    requires FormatLayout(f).Success? && FormatLayout(g).Success?
    ensures FormatLayout(f) == FormatLayout(g) ==> f == g
  {
  }

  /** The primitive layout of a kind without `format`: a number is a
    * double. */
  function PrimitiveOfKind(k: LayoutKind): (r: Option<NativeLayout>)
    ensures r.Some? <==> k in {BooleanKind, IntegerKind, NumberKind, StringKind}
    ensures r == Some(NativeDouble) <==> k == NumberKind
  {
    match k
    case BooleanKind => Some(NativeBoolean)
    case IntegerKind => Some(NativeInteger)
    case NumberKind => Some(NativeDouble)
    case StringKind => Some(NativeString)
    case _ => None
  }

  /** The choice of `import_array_schema`: `uniqueItems: true` makes a set
    * and anything else an array, and the kind is refined accordingly. */
  function ArrayChoice(kind: LayoutKind, uniqueItems: Option<bool>): (r: Result<(LayoutKind, bool), ImportError>)
    ensures r.Success? ==> (r.value.1 <==> uniqueItems == Some(true))
    ensures r.Success? ==> r.value.0 == (if r.value.1 then SetKind else ArrayKind)
    ensures r.Success? <==> kind in {UnknownKind, ArrayOrSetKind, if uniqueItems == Some(true) then SetKind else ArrayKind}
  {
    if uniqueItems == Some(true) then
      var k :- RefineAsWritten(kind, SetKind);
      Success((k, true))
    else
      var k :- RefineAsWritten(kind, ArrayKind);
      Success((k, false))
  }

  // Layout descriptions.

  datatype NumericBound =
    | InclusiveMinimum(n: Json.Number) | ExclusiveMinimum(n: Json.Number)
    | InclusiveMaximum(n: Json.Number) | ExclusiveMaximum(n: Json.Number)

  /** A string restriction: the text of a `const` value, or a `pattern`. */
  datatype StringPattern = ConstPattern(value: Json.Value) | RegexPattern(regex: string)

  /** What `import_layout_description` builds, with sub-schemas left
    * out. */
  datatype Shape =
    | PrimitiveShape(primitive: NativeLayout)
    | NumericShape(numeric: NativeLayout, bounds: seq<NumericBound>)
    | StringShape(patterns: seq<StringPattern>)
    | ArrayShape(isSet: bool)
    | StructShape

  function OptionToSeq<T>(o: Option<T>): (r: seq<T>)
    ensures |r| <= 1 && (r == [] <==> o.None?)
    ensures o.Some? ==> r == [o.value]
  {
    match o
    case Some(x) => [x]
    case None => []
  }

  function MapOption<T, U>(o: Option<T>, f: T -> U): Option<U> {
    match o
    case Some(x) => Some(f(x))
    case None => None
  }

  /** The bounds in the order they are inserted: minimum, exclusive
    * minimum, maximum, exclusive maximum. */
  function NumericBounds(v: NumericValidation): (r: seq<NumericBound>)
    ensures |r| <= 4
    ensures r == [] <==> v.minimum.None? && v.exclusiveMinimum.None? && v.maximum.None? && v.exclusiveMaximum.None?
  {
    OptionToSeq(MapOption(v.minimum, n => InclusiveMinimum(n)))
    + OptionToSeq(MapOption(v.exclusiveMinimum, n => ExclusiveMinimum(n)))
    + OptionToSeq(MapOption(v.maximum, n => InclusiveMaximum(n)))
    + OptionToSeq(MapOption(v.exclusiveMaximum, n => ExclusiveMaximum(n)))
  }

  /** The kind after `type` and `format`, with the primitive layout they
    * call for. */
  function KindAndPrimitive(v: Validation): (r: Result<(LayoutKind, Option<NativeLayout>), ImportError>)
    ensures r.Success? && v.format.Some? ==> r.value.0 == StringKind && r.value.1.Some? && FormatLayout(v.format.value) == Success(r.value.1.value)
    ensures r.Success? && v.format.None? ==> r.value.1 == PrimitiveOfKind(r.value.0)
  {
    var kind :- match v.any.ty
                case None => Success(UnknownKind)
                case Some(ts) => KindOfTypes(UnknownKind, ts);
    match v.format
    case Some(f) =>
      var k :- RefineAsWritten(kind, StringKind);
      var p :- FormatLayout(f);
      Success((k, Some(p)))
    case None => Success((kind, PrimitiveOfKind(kind)))
  }

  /** The kind a definition's keywords refine the kind to: string
    * keywords make a string, array keywords an array or set, and object
    * keywords a struct. */
  function DefinitionKind(kind: LayoutKind, d: Definition, v: Validation): (r: Result<LayoutKind, ImportError>)
    ensures r.Success? ==> Below(kind, r.value)
    ensures r.Success? && !ObjectSchemaIsEmpty(d.objectData) ==> r.value == StructKind
    ensures r.Success? && !ArraySchemaIsEmpty(d.arrayData) ==> Below(ArrayOrSetKind, r.value)
    ensures r.Success? && !StringDataIsEmpty(d.stringData) ==> r.value == StringKind
  {
    var k1 :- if !StringDataIsEmpty(d.stringData) || !StringIsEmpty(v.stringValidation) then RefineAsWritten(kind, StringKind) else Success(kind);
    var k2 :- if !ArraySchemaIsEmpty(d.arrayData) || !ArrayIsEmpty(v.arrayValidation) then RefineAsWritten(k1, ArrayOrSetKind) else Success(k1);
    if !ObjectSchemaIsEmpty(d.objectData) || !ObjectIsEmpty(v.objectValidation) then RefineAsWritten(k2, StructKind) else Success(k2)
  }

  /** `import_layout_description`, sub-schemas aside: a primitive schema
    * with a primitive layout is that layout; otherwise a definition is
    * described according to its kind. */
  function ImportShape(s: RegularSchema): (r: Result<Shape, ImportError>)
    ensures r.Success? && r.value.ArrayShape? ==> (r.value.isSet <==> s.validation.arrayValidation.uniqueItems == Some(true))
    ensures r.Success? && r.value.StringShape? ==> |r.value.patterns| <= 2
    ensures r.Success? && !r.value.PrimitiveShape? ==> s.desc.Definition?
    ensures r.Success? && r.value.NumericShape? ==> r.value.bounds == NumericBounds(s.validation.numeric)
  {
    var (kind, primitive) :- KindAndPrimitive(s.validation);
    if primitive.Some? && IsPrimitiveSchema(s) then Success(PrimitiveShape(primitive.value))
    else
      match s.desc
      case Definition(d) =>
        var k :- DefinitionKind(kind, d, s.validation);
        (match k
         case UnknownKind => Failure(Unimplemented)
         case BooleanKind => Failure(Unimplemented)
         case NumberKind =>
           if NumericIsEmpty(s.validation.numeric) then Success(PrimitiveShape(primitive.value))
           else Success(NumericShape(primitive.value, NumericBounds(s.validation.numeric)))
         case IntegerKind =>
           if NumericIsEmpty(s.validation.numeric) then Success(PrimitiveShape(primitive.value))
           else Success(NumericShape(primitive.value, NumericBounds(s.validation.numeric)))
         case StringKind =>
           Success(StringShape(OptionToSeq(MapOption(s.validation.any.cnst, c => ConstPattern(c)))
                               + OptionToSeq(MapOption(s.validation.stringValidation.pattern, p => RegexPattern(p)))))
         case StructKind => Success(StructShape)
         case ArrayOrSetKind =>
           if d.arrayData.items.None? then Failure(Unimplemented)
           // refining an array-or-set to an array or a set cannot fail
           else Success(ArrayShape(ArrayChoice(k, s.validation.arrayValidation.uniqueItems).value.1))
         // No `type` and no keyword gives an array or a set before the
         // choice between them is made.
         case _ => Failure(Unimplemented))
      case _ => Failure(Unimplemented)
  }

  /** A schema with nothing but a primitive `type` is that primitive. */
  lemma ImportPrimitiveType(s: RegularSchema, t: Type)
    requires t in {BooleanType, IntegerType, NumberType, StringType}
    requires s.validation.any.ty == Some([t]) && s.validation.format.None?
    requires IsPrimitiveSchema(s)
    ensures ImportShape(s) == Success(PrimitiveShape(PrimitiveOfKind(KindOfType(t).value).value))
  {
    assert KindOfTypes(UnknownKind, [t]) == KindOfTypes(KindOfType(t).value, []);
  }

  /** A schema with a supported format and no `type` is that format's
    * layout. */
  lemma ImportFormat(s: RegularSchema, f: Format)
    requires s.validation.any.ty.None? && s.validation.format == Some(f)
    requires FormatLayout(f).Success? && IsPrimitiveSchema(s)
    ensures ImportShape(s) == Success(PrimitiveShape(FormatLayout(f).value))
  {
  }

  /** As written, a schema of `"type": "string"` with a `format` is
    * rejected: the string kind cannot be refined by a string. */
  lemma ImportStringFormat(s: RegularSchema, f: Format)
    requires s.validation.any.ty == Some([StringType]) && s.validation.format == Some(f)
    ensures ImportShape(s) == Failure(UnsupportedType)
  {
    assert KindOfTypes(UnknownKind, [StringType]) == KindOfTypes(StringKind, []);
  }

  // Object fields.

  /** Whether `required` lists the property. */
  predicate IsRequired(required: Option<seq<string>>, name: string) {
    required.Some? && name in required.value
  }

  /** The layout of a field: the property's own layout, or an option
    * layout wrapping it. */
  datatype FieldLayout = Direct(layout: Id) | Wrapped(option: Id, item: Id)

  datatype Field = Field(id: Id, name: string, layout: FieldLayout)

  function ItemOf(l: FieldLayout): Id {
    match l
    case Direct(x) => x
    case Wrapped(_, x) => x
  }

  /** The fields of `import_object_schema` for the properties from the
    * `i`-th on, each given with the layout of its schema, in key order:
    * a property that is not required is wrapped in an option, and a
    * property name that is not a TreeLDR name is an error. */
  function ImportFields(props: seq<(string, Id)>, i: nat, required: Option<seq<string>>, isName: string -> bool, g: nat): (r: Result<(nat, seq<Field>), ImportError>)
    requires i <= |props|
    ensures r.Success? ==> r.value.0 >= g && |r.value.1| == |props| - i
    ensures r.Success? ==> forall j :: 0 <= j < |r.value.1| ==> r.value.1[j].name == props[i + j].0
    ensures r.Success? ==> forall j :: 0 <= j < |r.value.1| ==> ItemOf(r.value.1[j].layout) == props[i + j].1
    ensures r.Success? ==> forall j :: 0 <= j < |r.value.1| ==> (r.value.1[j].layout.Wrapped? <==> !IsRequired(required, props[i + j].0))
    ensures r.Success? <==> forall j :: i <= j < |props| ==> isName(props[j].0)
    ensures r.Failure? ==> exists j :: i <= j < |props| && r.error == InvalidPropertyName(props[j].0) && !isName(props[j].0)
    decreases |props| - i
  {
    if i == |props| then Success((g, []))
    else
      var (name, layout) := props[i];
      var (g1, fieldLayout) := if IsRequired(required, name) then (g, Direct(layout))
                               else (g + 1, Wrapped(CoreVocab.Blank(g), layout));
      var fieldId := CoreVocab.Blank(g1);
      if !isName(name) then Failure(InvalidPropertyName(name))
      else
        var (g2, rest) :- ImportFields(props, i + 1, required, isName, g1 + 1);
        Success((g2, [Field(fieldId, name, fieldLayout)] + rest))
  }

  /** The fields and option layouts are fresh blank nodes, distinct from
    * each other and from everything handed out before. */
  lemma {:induction false} ImportFieldsFresh(props: seq<(string, Id)>, i: nat, required: Option<seq<string>>, isName: string -> bool, g: nat)
    requires i <= |props|
    requires ImportFields(props, i, required, isName, g).Success?
    ensures var r := ImportFields(props, i, required, isName, g).value;
      forall j :: 0 <= j < |r.1| ==> r.1[j].id.Blank? && g <= r.1[j].id.blank < r.0
    ensures var r := ImportFields(props, i, required, isName, g).value;
      forall j, k :: 0 <= j < k < |r.1| ==> r.1[j].id.blank < r.1[k].id.blank
    decreases |props| - i
  {
    if i < |props| {
      var (name, layout) := props[i];
      var g1 := if IsRequired(required, name) then g else g + 1;
      ImportFieldsFresh(props, i + 1, required, isName, g1 + 1);
    }
  }
}
