/**
 * The layout abstract syntax: the thirteen layout `type` names and the
 * dispatch on them, layout references, the default inputs and patterns,
 * registering a built layout under its id, list nodes and the literal
 * datatypes.  Reading the per-variant fields is reduced to the dispatch
 * that chooses the variant.
 */
module LayoutSyntax {
  import opened Wrappers
  import opened LayoutJson
  import Scopes

  // ---------------------------------------------------------------------------
  // Layout type names
  // ---------------------------------------------------------------------------

  datatype LayoutType =
    | UnitType | BooleanType | NumberType | ByteStringType | TextStringType | IdType
    | ProductType | SumType | OrderedListType | UnorderedListType | SizedListType
    | UnionType | IntersectionType

  function TypeName(t: LayoutType): string {
    match t
    case UnitType => "unit"
    case BooleanType => "boolean"
    case NumberType => "number"
    case ByteStringType => "bytes"
    case TextStringType => "string"
    case IdType => "id"
    case ProductType => "record"
    case SumType => "sum"
    case OrderedListType => "list"
    case UnorderedListType => "set"
    case SizedListType => "tuple"
    case UnionType => "union"
    case IntersectionType => "intersection"
  }

  function TypeOfName(s: string): (r: Option<LayoutType>)
    ensures r.Some? ==> TypeName(r.value) == s
  {
    match s
    case "unit" => Some(UnitType)
    case "boolean" => Some(BooleanType)
    case "number" => Some(NumberType)
    case "bytes" => Some(ByteStringType)
    case "string" => Some(TextStringType)
    case "id" => Some(IdType)
    case "record" => Some(ProductType)
    case "sum" => Some(SumType)
    case "list" => Some(OrderedListType)
    case "set" => Some(UnorderedListType)
    case "tuple" => Some(SizedListType)
    case "union" => Some(UnionType)
    case "intersection" => Some(IntersectionType)
    case _ => None
  }

  /** Every type is recognised by its name, so the names are distinct. */
  lemma TypeNameRoundTrip(t: LayoutType)
    ensures TypeOfName(TypeName(t)) == Some(t)
  {
  }

  function Names(ts: seq<LayoutType>): (r: seq<string>)
    ensures |r| == |ts| && forall i :: 0 <= i < |ts| ==> r[i] == TypeName(ts[i])
  {
    seq(|ts|, i requires 0 <= i < |ts| => TypeName(ts[i]))
  }

  /** The types a layout object may declare, in the order the error lists
    * them. */
  const LayoutTypes: seq<LayoutType> := [
    IdType, UnitType, BooleanType, NumberType, ByteStringType, TextStringType,
    ProductType, SumType, OrderedListType, UnorderedListType, SizedListType,
    UnionType, IntersectionType]

  const DataTypes: seq<LayoutType> := [UnitType, BooleanType, NumberType, ByteStringType, TextStringType]

  const LiteralTypes: seq<LayoutType> := [IdType] + DataTypes

  const ListTypes: seq<LayoutType> := [OrderedListType, UnorderedListType, SizedListType]

  /** All thirteen types are accepted by a layout object, and each once. */
  lemma LayoutTypesComplete(t: LayoutType)
    ensures t in LayoutTypes
    ensures |LayoutTypes| == 13
    ensures forall i, j :: 0 <= i < j < |LayoutTypes| ==> LayoutTypes[i] != LayoutTypes[j]
  {
  }

  /** Reads the `type` entry and accepts it when it names one of the given
    * types; otherwise the error, at the offset of the `type` value, lists
    * the accepted names. */
  function DispatchType(entries: seq<Entry>, offset: nat, accepted: seq<LayoutType>): (r: Result<LayoutType, Error>)
    ensures r.Success? <==> (RequireType(entries, offset).Success?
      && TypeOfName(RequireType(entries, offset).value.1).Some?
      && TypeOfName(RequireType(entries, offset).value.1).value in accepted)
    ensures r.Success? ==> r.value in accepted && TypeName(r.value) == RequireType(entries, offset).value.1
    ensures RequireType(entries, offset).Success? && r.Failure? ==>
      r.error == InvalidType(RequireType(entries, offset).value.0, Many(Names(accepted)), RequireType(entries, offset).value.1)
    ensures RequireType(entries, offset).Failure? ==> r == Failure(RequireType(entries, offset).error)
  {
    match RequireType(entries, offset)
    case Failure(e) => Failure(e)
    case Success((o, name)) =>
      match TypeOfName(name)
      case Some(t) => if t in accepted then Success(t) else Failure(InvalidType(o, Many(Names(accepted)), name))
      case None => Failure(InvalidType(o, Many(Names(accepted)), name))
  }

  /** A `type` string is accepted exactly when it is one of the accepted
    * names. */
  lemma DispatchAcceptsNames(entries: seq<Entry>, offset: nat, accepted: seq<LayoutType>)
    requires RequireType(entries, offset).Success?
    ensures DispatchType(entries, offset, accepted).Success? <==> RequireType(entries, offset).value.1 in Names(accepted)
  {
    var name := RequireType(entries, offset).value.1;
    if name in Names(accepted) {
      var i :| 0 <= i < |accepted| && Names(accepted)[i] == name;
      TypeNameRoundTrip(accepted[i]);
    }
  }

  /** The variant a layout object reads as. */
  datatype LayoutVariant =
    | LiteralVariant(literal: LiteralVariantKind)
    | ProductVariant
    | SumVariant
    | ListVariant(list: LayoutType)
    | BooleanVariant(b: bool)
    | UnionVariant
    | IntersectionVariant

  datatype LiteralVariantKind = IdLiteral | DataLiteral(data: LayoutType)

  function VariantOf(t: LayoutType): (r: LayoutVariant)
    ensures t in LiteralTypes <==> r.LiteralVariant?
    ensures t in ListTypes <==> r.ListVariant?
    ensures r.LiteralVariant? ==> (r.literal.IdLiteral? <==> t == IdType)
  {
    match t
    case IdType => LiteralVariant(IdLiteral)
    case UnitType => LiteralVariant(DataLiteral(t))
    case BooleanType => LiteralVariant(DataLiteral(t))
    case NumberType => LiteralVariant(DataLiteral(t))
    case ByteStringType => LiteralVariant(DataLiteral(t))
    case TextStringType => LiteralVariant(DataLiteral(t))
    case ProductType => ProductVariant
    case SumType => SumVariant
    case OrderedListType => ListVariant(t)
    case UnorderedListType => ListVariant(t)
    case SizedListType => ListVariant(t)
    case UnionType => UnionVariant
    case IntersectionType => IntersectionVariant
  }

  /** A layout is `true`, `false` or an object whose `type` picks the
    * variant. */
  function ReadLayout(j: Json): (r: Result<LayoutVariant, Error>)
    ensures j.value.Boolean? ==> r == Success(BooleanVariant(j.value.b))
    ensures j.value.Object? ==> r == DispatchType(j.value.entries, j.offset, LayoutTypes).Map(VariantOf)
    ensures !j.value.Boolean? && !j.value.Object? ==> r == Failure(Unexpected(j.offset, {BooleanKind, ObjectKind}, KindOf(j.value)))
  {
    match j.value
    case Boolean(b) => Success(BooleanVariant(b))
    case Object(entries) => DispatchType(entries, j.offset, LayoutTypes).Map(VariantOf)
    case other => Failure(Unexpected(j.offset, {BooleanKind, ObjectKind}, KindOf(other)))
  }

  /** A layout object with an unknown `type` is rejected with all thirteen
    * names. */
  lemma ReadLayoutUnknownType(j: Json)
    requires j.value.Object? && RequireType(j.value.entries, j.offset).Success?
    requires TypeOfName(RequireType(j.value.entries, j.offset).value.1).None?
    ensures ReadLayout(j) == Failure(InvalidType(RequireType(j.value.entries, j.offset).value.0,
      Many(["id", "unit", "boolean", "number", "bytes", "string", "record", "sum", "list", "set", "tuple", "union", "intersection"]),
      RequireType(j.value.entries, j.offset).value.1))
  {
    LayoutTypeNames();
  }

  /** The names of the thirteen layout types, in order. */
  lemma LayoutTypeNames()
    ensures Names(LayoutTypes) == ["id", "unit", "boolean", "number", "bytes", "string", "record", "sum", "list", "set", "tuple", "union", "intersection"]
  {
  }

  /** A literal layout: `id` or one of the five data types. */
  function ReadLiteral(entries: seq<Entry>, offset: nat): (r: Result<LiteralVariantKind, Error>)
    ensures r.Success? <==> DispatchType(entries, offset, LiteralTypes).Success?
    ensures r.Success? ==> (r.value.IdLiteral? <==> DispatchType(entries, offset, LiteralTypes).value == IdType)
    ensures r.Success? && r.value.DataLiteral? ==> r.value.data in DataTypes
  {
    match DispatchType(entries, offset, LiteralTypes)
    case Failure(e) => Failure(e)
    case Success(t) => if t == IdType then Success(IdLiteral) else Success(DataLiteral(t))
  }

  /** A data layout: one of the five data types. */
  function ReadData(entries: seq<Entry>, offset: nat): (r: Result<LayoutType, Error>)
    ensures r.Success? ==> r.value in DataTypes
  {
    DispatchType(entries, offset, DataTypes)
  }

  /** A list layout: `list`, `set` or `tuple`. */
  function ReadList(entries: seq<Entry>, offset: nat): (r: Result<LayoutType, Error>)
    ensures r.Success? ==> r.value in ListTypes
  {
    DispatchType(entries, offset, ListTypes)
  }

  /** The literal, data and list dispatches agree with the layout dispatch
    * on every type they accept. */
  lemma NestedDispatchAgrees(entries: seq<Entry>, offset: nat)
    ensures ReadLiteral(entries, offset).Success? ==>
      ReadLayout(Json(offset, Object(entries))) == Success(LiteralVariant(ReadLiteral(entries, offset).value))
    ensures ReadList(entries, offset).Success? ==>
      ReadLayout(Json(offset, Object(entries))) == Success(ListVariant(ReadList(entries, offset).value))
  {
  }

  // ---------------------------------------------------------------------------
  // Layout references
  // ---------------------------------------------------------------------------

  datatype LayoutRef = Ref(iri: string) | Inline(layout: LayoutVariant)

  /** A reference is a compact IRI string or an inline layout object. */
  function ReadLayoutRef(j: Json, isCompactIri: string -> bool): (r: Result<LayoutRef, Error>)
    ensures j.value.String? ==> (r.Success? <==> isCompactIri(j.value.s))
    ensures j.value.String? && r.Success? ==> r.value == Ref(j.value.s)
    ensures j.value.Object? ==> r == ReadLayout(j).Map((l: LayoutVariant) => Inline(l))
    ensures !j.value.String? && !j.value.Object? ==> r == Failure(Unexpected(j.offset, {StringKind, ObjectKind}, KindOf(j.value)))
  {
    match j.value
    case String(s) => if isCompactIri(s) then Success(Ref(s)) else Failure(InvalidCompactIri(j.offset, s))
    case Object(_) => ReadLayout(j).Map((l: LayoutVariant) => Inline(l))
    case other => Failure(Unexpected(j.offset, {StringKind, ObjectKind}, KindOf(other)))
  }

  function ReadLayoutObject(entries: seq<Entry>, offset: nat): Result<LayoutVariant, Error> {
    ReadLayout(Json(offset, Object(entries)))
  }

  /** A value format or list node position reads a string or an object
    * with a `type` entry exactly as a layout reference. */
  lemma OrLayoutAgreesWithRef<O>(j: Json, isCompactIri: string -> bool, readOther: (seq<Entry>, nat) -> Result<O, Error>)
    requires j.value.String? || (j.value.Object? && ContainsKey(j.value.entries, "type"))
    ensures var r := ReadOrLayout(j, isCompactIri, ReadLayoutObject, readOther);
      var l := ReadLayoutRef(j, isCompactIri);
      (r.Success? <==> l.Success?)
      && (r.Success? && r.value.RefLayout? ==> l.value == Ref(r.value.iri))
      && (r.Success? && r.value.InlineLayout? ==> l.value == Inline(r.value.layout))
  {
  }

  // ---------------------------------------------------------------------------
  // Defaults
  // ---------------------------------------------------------------------------

  const ValueVariable := "value"

  /** The default input of a value format: the variable `value`. */
  const DefaultValueInput: Scopes.OneOrMany<Scopes.SyntaxPattern> := Scopes.One(Scopes.VarPattern(ValueVariable))

  predicate IsDefaultValueInput(input: Scopes.OneOrMany<Scopes.SyntaxPattern>) {
    var slice := Scopes.AsSlice(input);
    |slice| == 1 && slice[0].VarPattern? && slice[0].name == ValueVariable
  }

  lemma DefaultValueInputSpec(input: Scopes.OneOrMany<Scopes.SyntaxPattern>)
    ensures IsDefaultValueInput(DefaultValueInput)
    ensures IsDefaultValueInput(input) <==> Scopes.AsSlice(input) == Scopes.AsSlice(DefaultValueInput)
  {
  }

  /** The default intro of a list item or node: the variable `value`. */
  const DefaultValueIntro: Scopes.OneOrMany<string> := Scopes.One(ValueVariable)

  const RdfFirst := "http://www.w3.org/1999/02/22-rdf-syntax-ns#first"
  const RdfRest := "http://www.w3.org/1999/02/22-rdf-syntax-ns#rest"
  const RdfNil := "http://www.w3.org/1999/02/22-rdf-syntax-ns#nil"
  const XsdBoolean := "http://www.w3.org/2001/XMLSchema#boolean"
  const XsdString := "http://www.w3.org/2001/XMLSchema#string"

  /** The default head of an ordered list is `self`; its default tail is
    * `rdf:nil`. */
  const DefaultHead := Scopes.VarPattern("self")
  const DefaultTail := Scopes.IriPattern(RdfNil)

  // ---------------------------------------------------------------------------
  // Registering layouts
  // ---------------------------------------------------------------------------

  /** A layout is registered under its IRI, or under a fresh blank node. */
  datatype LayoutId = Named(iri: string) | Anonymous(n: nat)

  /** Every blank node used so far is below the generator's next value. */
  ghost predicate FreshBlanks<L>(layouts: map<LayoutId, L>, next: nat) {
    forall k: nat :: Anonymous(k) in layouts ==> k < next
  }

  datatype Registered<L> = Registered(layouts: map<LayoutId, L>, next: nat, result: Result<LayoutId, Scopes.BuildError>)

  /** The id a layout is registered under: its IRI resolved in the scope, or
    * the next blank node. */
  function LayoutIdOf(iris: Scopes.Iris, s: Scopes.Scope, next: nat, id: Option<string>): (r: Result<LayoutId, Scopes.BuildError>)
    ensures id.None? ==> r == Success(Anonymous(next))
    ensures id.Some? ==> (r.Success? <==> Scopes.Resolve(iris, s, id.value).Success?)
    ensures id.Some? && r.Success? ==> r.value == Named(Scopes.Resolve(iris, s, id.value).value)
  {
    match id
    case Some(c) => Scopes.Resolve(iris, s, c).Map((iri: string) => Named(iri))
    case None => Success(Anonymous(next))
  }

  /** Builds a layout's id, then its body, then stores it.  A resolution or
    * body error stops before the store; otherwise the layout is stored in
    * any case, and an id that already held a layout is a redefinition. */
  function RegisterLayout<L>(iris: Scopes.Iris, s: Scopes.Scope, layouts: map<LayoutId, L>, next: nat,
                             id: Option<string>, body: Result<L, Scopes.BuildError>): (r: Registered<L>)
    ensures r.next == if id.None? then next + 1 else next
    ensures LayoutIdOf(iris, s, next, id).Failure? ==>
      r.layouts == layouts && r.result == Failure(LayoutIdOf(iris, s, next, id).error)
    ensures LayoutIdOf(iris, s, next, id).Success? && body.Failure? ==>
      r.layouts == layouts && r.result == Failure(body.error)
    ensures LayoutIdOf(iris, s, next, id).Success? && body.Success? ==>
      r.layouts == layouts[LayoutIdOf(iris, s, next, id).value := body.value]
    ensures LayoutIdOf(iris, s, next, id).Success? && body.Success? ==>
      (r.result.Success? <==> LayoutIdOf(iris, s, next, id).value !in layouts)
    ensures LayoutIdOf(iris, s, next, id).Success? && body.Success? && r.result.Failure? ==>
      r.result.error == Scopes.LayoutRedefinition
    ensures r.result.Success? ==> r.result.value in r.layouts && body.Success? && r.layouts[r.result.value] == body.value
    ensures FreshBlanks(layouts, next) ==> FreshBlanks(r.layouts, r.next)
  {
    var lid := LayoutIdOf(iris, s, next, id);
    var next' := if id.None? then next + 1 else next;
    if lid.Failure? then Registered(layouts, next', Failure(lid.error))
    else if body.Failure? then Registered(layouts, next', Failure(body.error))
    else
      var layouts' := layouts[lid.value := body.value];
      if lid.value in layouts then Registered(layouts', next', Failure(Scopes.LayoutRedefinition))
      else Registered(layouts', next', Success(lid.value))
  }

  /** An anonymous layout is never a redefinition while the blank node
    * generator stays ahead of the stored ids. */
  lemma AnonymousNeverRedefines<L>(iris: Scopes.Iris, s: Scopes.Scope, layouts: map<LayoutId, L>, next: nat, layout: L)
    requires FreshBlanks(layouts, next)
    ensures RegisterLayout(iris, s, layouts, next, None, Success(layout)).result == Success(Anonymous(next))
  {
  }

  /** Registering two layouts under the same IRI fails the second time. */
  lemma NamedTwiceRedefines<L>(iris: Scopes.Iris, s: Scopes.Scope, layouts: map<LayoutId, L>, next: nat, id: string, a: L, b: L)
    requires Scopes.Resolve(iris, s, id).Success?
    ensures var first := RegisterLayout(iris, s, layouts, next, Some(id), Success(a));
      RegisterLayout(iris, s, first.layouts, first.next, Some(id), Success(b)).result == Failure(Scopes.LayoutRedefinition)
  {
  }

  // ---------------------------------------------------------------------------
  // List nodes
  // ---------------------------------------------------------------------------

  datatype Quad = Quad(subject: Scopes.Pattern, property: Scopes.Pattern, value: Scopes.Pattern)

  /** The dataset a list node describes by default: `head rdf:first first`
    * and `head rdf:rest rest`. */
  function DefaultListDataset(head: nat, rest: nat, first: Scopes.Pattern): (r: set<Quad>)
    ensures |r| == 2
    ensures forall q :: q in r ==> q.subject == Scopes.Var(head)
    ensures Quad(Scopes.Var(head), Scopes.Resource(RdfFirst), first) in r
    ensures Quad(Scopes.Var(head), Scopes.Resource(RdfRest), Scopes.Var(rest)) in r
  {
    var a := Quad(Scopes.Var(head), Scopes.Resource(RdfFirst), first);
    var b := Quad(Scopes.Var(head), Scopes.Resource(RdfRest), Scopes.Var(rest));
    assert a != b by { assert RdfFirst != RdfRest by { assert RdfFirst[44] != RdfRest[44]; } }
    {a, b}
  }

  /** The node of a list given as a bare layout: it introduces one variable,
    * `first`, after the implicit `head` and `rest`. */
  datatype NodeLayout = NodeLayout(intro: nat, input: seq<Scopes.Pattern>, dataset: set<Quad>)

  function LayoutNode(s: Scopes.Scope): (r: NodeLayout)
    ensures r.intro == 1 && r.input == [Scopes.Var(s.count + 2)]
    ensures r.dataset == DefaultListDataset(s.count, s.count + 1, Scopes.Var(s.count + 2))
  {
    var head := s.count;
    var rest := head + 1;
    var first := rest + 1;
    NodeLayout(1, [Scopes.Var(first)], DefaultListDataset(head, rest, Scopes.Var(first)))
  }

  /** The scope a list node's value is read in: the head name, the rest name
    * and the node's intros, bound in that order. */
  function ListNodeScope(s: Scopes.Scope, headName: string, restName: string, intro: seq<string>): (r: Scopes.Scope)
    ensures r.count == s.count + 2 + |intro|
  {
    Scopes.WithIntro(s, [headName, restName] + intro)
  }

  /** With distinct names, the head is the old count, the rest the next
    * index, and the intros follow. */
  lemma ListNodeScopeIndices(s: Scopes.Scope, headName: string, restName: string, intro: seq<string>, i: nat)
    requires headName != restName && headName !in intro && restName !in intro
    requires i < |intro| ==> intro[i] !in intro[i + 1..]
    ensures Scopes.Variable(ListNodeScope(s, headName, restName, intro), headName) == Success(s.count)
    ensures Scopes.Variable(ListNodeScope(s, headName, restName, intro), restName) == Success(s.count + 1)
    ensures i < |intro| ==> Scopes.Variable(ListNodeScope(s, headName, restName, intro), intro[i]) == Success(s.count + 2 + i)
  {
    var names := [headName, restName] + intro;
    Scopes.BindAllVariable(s, names, headName);
    assert Scopes.LastIndex(names, headName) == 0;
    Scopes.BindAllVariable(s, names, restName);
    assert names[1] == restName;
    assert restName !in names[2..] by { assert names[2..] == intro; }
    LastIndexIs(names, restName, 1);
    if i < |intro| {
      Scopes.BindAllVariable(s, names, intro[i]);
      assert names[2 + i] == intro[i];
      assert names[2 + i + 1..] == intro[i + 1..];
      LastIndexIs(names, intro[i], 2 + i);
    }
  }

  lemma LastIndexIs(names: seq<string>, x: string, k: nat)
    requires k < |names| && names[k] == x && x !in names[k + 1..]
    ensures Scopes.LastIndex(names, x) == k
  {
  }

  /** The value of a list node: a value format with explicit inputs, or a
    * bare layout read from the variable `value`. */
  datatype NodeValue = FormatValue(inputs: seq<Scopes.SyntaxPattern>) | LayoutValue

  /** The dataset of a list node without an explicit one: the default list
    * dataset whose `first` is the format's only input, or the variable
    * `value` for a bare layout; a format with any other number of inputs
    * describes nothing. */
  function NodeDefaultDataset(iris: Scopes.Iris, s: Scopes.Scope, head: nat, rest: nat, value: NodeValue): (r: Result<set<Quad>, Scopes.BuildError>)
    ensures value.FormatValue? && |value.inputs| != 1 ==> r == Success({})
    ensures value.FormatValue? && |value.inputs| == 1 ==>
      (r.Success? <==> Scopes.BuildPattern(iris, s, value.inputs[0]).Success?)
    ensures value.FormatValue? && |value.inputs| == 1 && r.Success? ==>
      r.value == DefaultListDataset(head, rest, Scopes.BuildPattern(iris, s, value.inputs[0]).value)
    ensures value.LayoutValue? ==> (r.Success? <==> ValueVariable in s.variables)
    ensures value.LayoutValue? && r.Success? ==>
      r.value == DefaultListDataset(head, rest, Scopes.Var(s.variables[ValueVariable]))
  {
    match value
    case FormatValue(inputs) =>
      if |inputs| == 1 then Scopes.BuildPattern(iris, s, inputs[0]).Map((first: Scopes.Pattern) => DefaultListDataset(head, rest, first))
      else Success({})
    case LayoutValue =>
      Scopes.Variable(s, ValueVariable).Map((v: nat) => DefaultListDataset(head, rest, Scopes.Var(v)))
  }

  /** The subject of the items of an unordered or sized list: the first
    * input, if there is one. */
  function ItemSubject(input: Scopes.OneOrMany<string>): (r: Option<nat>)
    ensures r.Some? <==> !Scopes.IsEmpty(input)
    ensures r.Some? ==> r.value == 0
  {
    if Scopes.IsEmpty(input) then None else Some(0)
  }

  /** A list item with a property but no list input has no subject. */
  lemma ItemWithoutInputHasNoSubject(s: Scopes.Scope, input: Scopes.OneOrMany<string>, itemIntro: Scopes.OneOrMany<string>)
    requires Scopes.IsEmpty(input)
    ensures Scopes.ItemProperty(s, ItemSubject(input), itemIntro) == Failure(Scopes.NoPropertySubject)
  {
  }

  // ---------------------------------------------------------------------------
  // Literal datatypes
  // ---------------------------------------------------------------------------

  /** The datatype of a literal layout: the explicit one, resolved, or the
    * layout's default. */
  function LiteralDatatype(iris: Scopes.Iris, s: Scopes.Scope, explicit: Option<string>, default: string): (r: Result<string, Scopes.BuildError>)
    ensures explicit.None? ==> r == Success(default)
    ensures explicit.Some? ==> r == Scopes.Resolve(iris, s, explicit.value)
  {
    match explicit
    case Some(c) => Scopes.Resolve(iris, s, c)
    case None => Success(default)
  }

  /** Boolean layouts default to `xsd:boolean`, text strings to
    * `xsd:string`; numbers and byte strings require an explicit datatype. */
  function DefaultDatatype(t: LayoutType): (r: Option<string>)
    ensures r.Some? <==> t == BooleanType || t == TextStringType
    ensures t == BooleanType ==> r == Some(XsdBoolean)
    ensures t == TextStringType ==> r == Some(XsdString)
  {
    match t
    case BooleanType => Some(XsdBoolean)
    case TextStringType => Some(XsdString)
    case _ => None
  }

  /** Reads the `datatype` entry of a data layout: optional for booleans and
    * text strings, required for numbers and byte strings. */
  function ReadDatatype(entries: seq<Entry>, offset: nat, t: LayoutType, read: Json -> Result<string, Error>): (r: Result<Option<string>, Error>)
    requires t in [BooleanType, TextStringType, NumberType, ByteStringType]
    ensures DefaultDatatype(t).Some? ==> r == GetEntry(entries, "datatype", read)
    ensures DefaultDatatype(t).None? && !ContainsKey(entries, "datatype") ==> r == Failure(MissingRequiredEntry(offset, "datatype"))
  {
    if DefaultDatatype(t).Some? then GetEntry(entries, "datatype", read)
    else RequireEntry(entries, "datatype", read, offset).Map((d: string) => Some(d))
  }
}
