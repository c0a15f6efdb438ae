/**
 * The layout of a field in the second-generation syntax builder
 * (`syntax/src/build/layout.rs`): its name, and the container the
 * `required`, `multiple` and `single` annotations wrap its layout in.
 */
module FieldLayout {
  import opened Wrappers

  /** A property IRI, reduced to what naming a field looks at. */
  datatype PropertyIri = PropertyIri(segments: seq<string>, fragment: Option<string>)

  /** The name of a field: its alias, else the fragment of its property
    * IRI, else the last path segment; an IRI without either is rejected. */
  function FieldName(alias: Option<string>, property: PropertyIri): (r: Option<string>)
    ensures alias.Some? ==> r == alias
    ensures alias.None? && property.fragment.Some? ==> r == property.fragment
    ensures alias.None? && property.fragment.None? ==>
      (r.Some? <==> property.segments != [] && property.segments[|property.segments| - 1] != [])
    ensures alias.None? && property.fragment.None? && r.Some? ==> r.value == property.segments[|property.segments| - 1]
  {
    match alias
    case Some(a) => Some(a)
    case None =>
      match property.fragment
      case Some(f) => Some(f)
      case None =>
        if property.segments != [] && property.segments[|property.segments| - 1] != [] then
          Some(property.segments[|property.segments| - 1])
        else None
  }

  datatype Annotation = Multiple | Required | Single

  /** The container a field's layout is wrapped in. */
  datatype Container<L> =
    | OptionOf(item: L)
    | RequiredOf(item: L)
    | SetOf(item: L, nonEmpty: bool)
    | OneOrManyOf(item: L, nonEmpty: bool)

  /** Wraps a field's layout: `required` with `multiple` gives a set, or a
    * one-or-many with `single`, restricted to at least one item;
    * `required` alone gives a required layout; `multiple` alone an
    * unrestricted set or one-or-many; no annotation an option.  `single`
    * matters only with `multiple`. */
  function FieldContainer<L>(annotations: seq<Annotation>, item: L): (r: Container<L>)
    ensures r.item == item
  {
    var required := Required in annotations;
    var multiple := Multiple in annotations;
    var single := Single in annotations;
    if multiple then
      if single then OneOrManyOf(item, required) else SetOf(item, required)
    else if required then RequiredOf(item)
    else OptionOf(item)
  }

  /** How many values a field in the container may hold. */
  predicate Accepts<L>(c: Container<L>, n: nat) {
    match c
    case OptionOf(_) => n <= 1
    case RequiredOf(_) => n == 1
    case SetOf(_, nonEmpty) => !nonEmpty || n >= 1
    case OneOrManyOf(_, nonEmpty) => !nonEmpty || n >= 1
  }

  /** `required` demands at least one value and only `multiple` allows more
    * than one. */
  lemma FieldCardinality<L>(annotations: seq<Annotation>, item: L, n: nat)
    ensures Accepts(FieldContainer(annotations, item), n) <==>
      (Required in annotations ==> n >= 1) && (Multiple !in annotations ==> n <= 1)
  {
  }

  /** A one-or-many container needs both `multiple` and `single`; a
    * non-empty restriction needs both `multiple` and `required`. */
  lemma OneOrManyNeedsSingle<L>(annotations: seq<Annotation>, item: L)
    ensures FieldContainer(annotations, item).OneOrManyOf? <==> Multiple in annotations && Single in annotations
    ensures ((FieldContainer(annotations, item).SetOf? || FieldContainer(annotations, item).OneOrManyOf?)
             && FieldContainer(annotations, item).nonEmpty)
        <==> Multiple in annotations && Required in annotations
  {
  }

  /** The order and repetition of annotations do not matter. */
  lemma AnnotationsAsSet<L>(a: seq<Annotation>, b: seq<Annotation>, item: L)
    requires forall x :: x in a <==> x in b
    ensures FieldContainer(a, item) == FieldContainer(b, item)
  {
  }
}
