/**
 * The older JSON Schema import (`json-schema/src/import.rs`), which writes
 * the layouts as RDF quads directly: constant values as RDF objects, RDF
 * lists, the native layout of a `format`, and the fields of an object
 * schema with their `schema:valueRequired` marks.  It shares the layout
 * kinds and their refinement with the newer import.  The quads written
 * for sub-schemas are left out: each property's layout is given as the
 * object its import returns.
 */
module JsonSchemaLegacyImport {
  import opened Wrappers
  import opened CoreVocab
  import Json
  import V = JsonSchemaValidation
  import JsonSchemaImport
  import ToRdf

  datatype LegacyError = UnsupportedType | Unimplemented

  /** `value_into_object`: booleans are `schema:True` and `schema:False`,
    * numbers `xsd:integer` literals of their text, strings plain literals,
    * and arrays RDF lists of their items' objects; `null` and objects are
    * not supported.  `show` is the text of a number. */
  function ValueIntoObject(g: nat, v: Json.Value, show: Json.Number -> string): (r: Result<(nat, seq<Quad>, Object), LegacyError>)
    ensures r.Success? ==> r.value.0 >= g
    ensures v.Boolean? ==> r == Success((g, [], Node(Id.Iri(if v.b then SchemaTrue else SchemaFalse))))
    ensures v.Num? ==> r == Success((g, [], Typed(show(v.n), XsdInteger)))
    ensures v.Str? ==> r == Success((g, [], Str(v.s)))
    ensures v.Null? || v.Object? ==> r == Failure(Unimplemented)
    ensures v.Array? && r.Success? ==> r.value.2.Node? && (r.value.2 == Node(ToRdf.NilId) <==> v.items == [])
    decreases v, 1, 0
  {
    match v
    case Null => Failure(Unimplemented)
    case Boolean(b) => Success((g, [], Node(Id.Iri(if b then SchemaTrue else SchemaFalse))))
    case Num(n) => Success((g, [], Typed(show(n), XsdInteger)))
    case Str(s) => Success((g, [], Str(s)))
    case Array(items) =>
      var list :- ItemsIntoList(g, v, 0, show);
      Success((list.0, list.1, Node(list.2)))
    case Object(_) => Failure(Unimplemented)
  }

  /** `try_into_rdf_list` over the items of `arr` from the `i`-th on: the
    * items are visited last to first; each item's own quads come first,
    * then the three quads of its list cell, whose blank node is handed out
    * after the item's. */
  function ItemsIntoList(g: nat, arr: Json.Value, i: nat, show: Json.Number -> string): (r: Result<(nat, seq<Quad>, Id), LegacyError>)
    requires arr.Array? && i <= |arr.items|
    ensures r.Success? ==> r.value.0 >= g
    ensures r.Success? ==> (r.value.2 == ToRdf.NilId <==> i == |arr.items|)
    ensures r.Success? && i < |arr.items| ==> r.value.0 > g && r.value.2 == Blank(r.value.0 - 1)
    decreases arr, 0, |arr.items| - i
  {
    if i == |arr.items| then Success((g, [], ToRdf.NilId))
    else
      var rest :- ItemsIntoList(g, arr, i + 1, show);
      var item :- ValueIntoObject(rest.0, arr.items[i], show);
      var id := Blank(item.0);
      Success((item.0 + 1, rest.1 + item.1 + ToRdf.ListNode(id, item.2, rest.2), id))
  }

  /** A scalar value: one that is written without quads. */
  predicate IsScalar(v: Json.Value) {
    v.Boolean? || v.Num? || v.Str?
  }

  /** The object of a scalar value, written at any point of the
    * generator. */
  function ScalarObject(v: Json.Value, show: Json.Number -> string): (o: Object)
    requires IsScalar(v)
    ensures forall g: nat :: ValueIntoObject(g, v, show) == Success((g, [], o))
  {
    match v
    case Boolean(b) => Node(Id.Iri(if b then SchemaTrue else SchemaFalse))
    case Num(n) => Typed(show(n), XsdInteger)
    case Str(s) => Str(s)
  }

  /** The objects of scalar values. */
  function ScalarObjects(items: seq<Json.Value>, show: Json.Number -> string): (os: seq<Object>)
    requires forall j :: 0 <= j < |items| ==> IsScalar(items[j])
    ensures |os| == |items|
  {
    seq(|items|, j requires 0 <= j < |items| => ScalarObject(items[j], show))
  }

  /** An array of scalars is written exactly as the RDF list export of the
    * core writes the list of their objects. */
  lemma {:induction false} ScalarArrayIsRdfList(g: nat, arr: Json.Value, i: nat, show: Json.Number -> string)
    requires arr.Array? && i <= |arr.items|
    requires forall j :: 0 <= j < |arr.items| ==> IsScalar(arr.items[j])
    ensures ItemsIntoList(g, arr, i, show) == Success(ToRdf.ToRdfList(g, ScalarObjects(arr.items[i..], show)))
    decreases |arr.items| - i
  {
    if i < |arr.items| {
      ScalarArrayIsRdfList(g, arr, i + 1, show);
      ScalarListStep(g, arr, i, show);
    }
  }

  /** The list of the items from the `i`-th on is the `i`-th item's cell
    * after the list of the items after it. */
  lemma ScalarListStep(g: nat, arr: Json.Value, i: nat, show: Json.Number -> string)
    requires arr.Array? && i < |arr.items|
    requires forall j :: 0 <= j < |arr.items| ==> IsScalar(arr.items[j])
    requires ItemsIntoList(g, arr, i + 1, show) == Success(ToRdf.ToRdfList(g, ScalarObjects(arr.items[i + 1..], show)))
    ensures ItemsIntoList(g, arr, i, show) == Success(ToRdf.ToRdfList(g, ScalarObjects(arr.items[i..], show)))
  {
    ScalarObjectsCons(arr.items, i, show);
    ScalarCellStep(g, arr, i, show, ScalarObjects(arr.items[i..], show), ScalarObjects(arr.items[i + 1..], show));
  }

  /** The same step, over any objects whose first is the item's. */
  lemma ScalarCellStep(g: nat, arr: Json.Value, i: nat, show: Json.Number -> string, os: seq<Object>, tail: seq<Object>)
    requires arr.Array? && i < |arr.items| && IsScalar(arr.items[i])
    requires os != [] && os[0] == ScalarObject(arr.items[i], show) && os[1..] == tail
    requires ItemsIntoList(g, arr, i + 1, show) == Success(ToRdf.ToRdfList(g, tail))
    ensures ItemsIntoList(g, arr, i, show) == Success(ToRdf.ToRdfList(g, os))
  {
    ScalarItemStep(g, arr, i, show, ToRdf.ToRdfList(g, tail));
    ToRdf.ToRdfListCons(g, os, os[0], tail);
  }

  /** The objects of the items from the `i`-th on are the `i`-th item's
    * object, then those of the items after it. */
  lemma ScalarObjectsCons(items: seq<Json.Value>, i: nat, show: Json.Number -> string)
    requires i < |items| && forall j :: 0 <= j < |items| ==> IsScalar(items[j])
    ensures ScalarObjects(items[i..], show) != []
    ensures ScalarObjects(items[i..], show)[0] == ScalarObject(items[i], show)
    ensures ScalarObjects(items[i..], show)[1..] == ScalarObjects(items[i + 1..], show)
  {
    assert items[i..][1..] == items[i + 1..];
  }

  /** One scalar item before a written list: its list cell comes after the
    * quads of the rest. */
  lemma ScalarItemStep(g: nat, arr: Json.Value, i: nat, show: Json.Number -> string, rest: (nat, seq<Quad>, Id))
    requires arr.Array? && i < |arr.items| && IsScalar(arr.items[i])
    requires ItemsIntoList(g, arr, i + 1, show) == Success(rest)
    ensures ItemsIntoList(g, arr, i, show)
      == Success((rest.0 + 1, rest.1 + ToRdf.ListNode(Blank(rest.0), ScalarObject(arr.items[i], show), rest.2), Blank(rest.0)))
  {
    var item := ScalarObject(arr.items[i], show);
    assert ValueIntoObject(rest.0, arr.items[i], show) == Success((rest.0, [], item));
    assert rest.1 + [] == rest.1;
  }

  /** So an array of scalars reads back, by following `rdf:first` and
    * `rdf:rest` from the object it is written as, as its items' objects. */
  lemma ScalarArrayReadsBack(g: nat, arr: Json.Value, show: Json.Number -> string)
    requires arr.Array?
    requires forall j :: 0 <= j < |arr.items| ==> IsScalar(arr.items[j])
    ensures var r := ValueIntoObject(g, arr, show);
      r.Success? && r.value.2.Node?
      && ToRdf.ReadList(r.value.1, r.value.2.id, |arr.items|) == Some(ScalarObjects(arr.items, show))
  {
    ScalarArrayIsRdfList(g, arr, 0, show);
    assert arr.items[0..] == arr.items;
    ToRdf.ToRdfListReads(g, ScalarObjects(arr.items, show), [], []);
    var l := ToRdf.ToRdfList(g, ScalarObjects(arr.items, show));
    assert [] + l.1 + [] == l.1;
  }

  /** The native layout of a `format`: only `date-time`, `date`, `time` and
    * `iri` have one. */
  function FormatLayout(f: V.Format): (r: Result<Term, LegacyError>)
    ensures r.Success? <==> f == V.DateTime || f == V.Date || f == V.Time || f == V.Iri
    ensures r.Success? ==> r.value in {XsdDateTime, XsdDate, XsdTime, XsdAnyUri}
    ensures r.Failure? ==> r.error == Unimplemented
  {
    match f
    case DateTime => Success(XsdDateTime)
    case Date => Success(XsdDate)
    case Time => Success(XsdTime)
    case Iri => Success(XsdAnyUri)
    case _ => Failure(Unimplemented)
  }

  /** The native layout of a kind without `format`. */
  function NativeOfKind(k: JsonSchemaImport.LayoutKind): (r: Option<Term>)
    ensures r.Some? <==> k in {JsonSchemaImport.BooleanKind, JsonSchemaImport.IntegerKind, JsonSchemaImport.NumberKind, JsonSchemaImport.StringKind}
    ensures r.Some? ==> r.value in {XsdBoolean, XsdInteger, XsdDouble, XsdString}
  {
    match k
    case BooleanKind => Some(XsdBoolean)
    case IntegerKind => Some(XsdInteger)
    case NumberKind => Some(XsdDouble)
    case StringKind => Some(XsdString)
    case _ => None
  }

  /** The `treeldr:native` layout: a `format` wins over the kind. */
  function NativeLayout(k: JsonSchemaImport.LayoutKind, format: Option<V.Format>): (r: Result<Option<Term>, LegacyError>)
    ensures format.Some? ==> r == (match FormatLayout(format.value) case Success(t) => Success(Some(t)) case Failure(e) => Failure(e))
    ensures format.None? ==> r == Success(NativeOfKind(k))
  {
    match format
    case Some(f) =>
      var t :- FormatLayout(f);
      Success(Some(t))
    case None => Success(NativeOfKind(k))
  }

  /** The quads of one field: its type, its name, its layout and, when
    * `required` lists it, the `schema:valueRequired` mark. */
  function FieldQuads(id: Id, name: string, layout: Object, required: Option<seq<string>>): seq<Quad> {
    [Quad(id, RdfType, Node(Id.Iri(TldrField))), Quad(id, TldrName, Str(name)), Quad(id, TldrFormat, layout)]
    + (if JsonSchemaImport.IsRequired(required, name) then [Quad(id, SchemaValueRequired, MarkTrue)] else [])
  }

  /** The emitter of the fields: every quad is about the field itself. */
  function FieldEmitter(required: Option<seq<string>>): (emit: (Id, (string, Object)) -> seq<Quad>)
    ensures ToRdf.Emits(emit)
  {
    (id: Id, p: (string, Object)) => FieldQuads(id, p.0, p.1, required)
  }

  const MarkTrue: Object := Node(Id.Iri(SchemaTrue))

  /** A field is marked exactly when it is required. */
  lemma FieldQuadsMark(id: Id, name: string, layout: Object, required: Option<seq<string>>, s: Id)
    ensures Quad(s, SchemaValueRequired, MarkTrue) in FieldQuads(id, name, layout, required)
      <==> s == id && JsonSchemaImport.IsRequired(required, name)
  {
  }

  /** Among the fields of the properties, handed out from `g`, exactly the
    * required properties get a `schema:valueRequired true` quad, on their
    * own field. */
  lemma RequiredMarks(props: seq<(string, Object)>, required: Option<seq<string>>, g: nat, j: nat)
    requires j < |props|
    ensures Quad(Blank(g + j), SchemaValueRequired, MarkTrue) in ToRdf.EachFresh(g, props, FieldEmitter(required)).1
      <==> JsonSchemaImport.IsRequired(required, props[j].0)
  {
    var emit := FieldEmitter(required);
    var q := Quad(Blank(g + j), SchemaValueRequired, MarkTrue);
    ToRdf.EachFreshOwn(g, props, emit, j, q);
    assert emit(Blank(g + j), props[j]) == FieldQuads(Blank(g + j), props[j].0, props[j].1, required);
    FieldQuadsMark(Blank(g + j), props[j].0, props[j].1, required, Blank(g + j));
  }

  /** `import_object_schema`: a fresh field per property, then the RDF list
    * of the fields, then the `treeldr:fields` quad linking the layout to
    * the list. */
  function ImportObjectSchema(id: Id, props: seq<(string, Object)>, required: Option<seq<string>>, g: nat): (r: (nat, seq<Quad>))
    ensures r.0 == g + 2 * |props|
    ensures ToRdf.SubjectsWithin(r.1, id, g, r.0)
  {
    ToRdf.ListOf(g, id, TldrFields, props, FieldEmitter(required))
  }

  /** The layout links to a list of exactly the fields, in property order,
    * and exactly the required properties' fields are marked. */
  lemma ImportObjectFields(pre: seq<Quad>, id: Id, props: seq<(string, Object)>, required: Option<seq<string>>, g: nat, j: nat)
    requires ToRdf.BlanksBelow(pre, g) && j < |props|
    ensures ToRdf.PointsTo(pre + ImportObjectSchema(id, props, required, g).1, id, TldrFields, ToRdf.FreshNodes(g, |props|))
    ensures Quad(Blank(g + j), SchemaValueRequired, MarkTrue) in ImportObjectSchema(id, props, required, g).1
      <==> JsonSchemaImport.IsRequired(required, props[j].0)
  {
    var emit := FieldEmitter(required);
    ToRdf.ListOfReads(pre, g, id, TldrFields, props, emit);
    RequiredMarks(props, required, g, j);
    var each := ToRdf.EachFresh(g, props, emit);
    var list := ToRdf.ToRdfList(each.0, each.2);
    var q := Quad(Blank(g + j), SchemaValueRequired, MarkTrue);
    assert ImportObjectSchema(id, props, required, g).1 == each.1 + list.1 + [Quad(id, TldrFields, Node(list.2))];
    assert q !in list.1;
  }
}
