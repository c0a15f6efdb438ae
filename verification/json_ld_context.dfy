/**
 * The JSON-LD context generator (`modules/json-ld-context/src/lib.rs`):
 * context builders chained to the context they are nested in, how a term
 * definition is looked up along the chain and inserted, which terms a
 * built context binds, and the `@type` written for primitive layouts.
 * Term definitions are kept abstract: two definitions are the same
 * definition exactly when they are equal.
 */
module JsonLdContext {
  import opened Wrappers

  /** `ContextBuilder`: the terms defined so far, whether nested contexts
    * see this one, and the builder this one is nested in. */
  datatype Builder<D> = Builder(terms: map<string, D>, doPropagate: bool, parent: Option<Builder<D>>)

  datatype Error = Ambiguity(term: string)

  /** `ContextBuilder::propagate_context`: the context a nested context is
    * built under, this one when it propagates and its parent otherwise. */
  function PropagateContext<D>(b: Builder<D>): (r: Option<Builder<D>>)
    ensures b.doPropagate ==> r == Some(b)
    ensures !b.doPropagate ==> r == b.parent
  {
    if b.doPropagate then Some(b) else b.parent
  }

  /** The term maps of a builder and its ancestors, nearest first. */
  function Chain<D>(b: Builder<D>): (c: seq<map<string, D>>)
    ensures |c| > 0 && c[0] == b.terms
    decreases b
  {
    match b.parent
    case None => [b.terms]
    case Some(p) => [b.terms] + Chain(p)
  }

  /** `ContextBuilder::contains`: the nearest definition of the term along
    * the chain is `def`. */
  predicate Contains<D(==)>(b: Builder<D>, term: string, def: D)
    decreases b
  {
    if term in b.terms then b.terms[term] == def
    else match b.parent
      case Some(p) => Contains(p, term, def)
      case None => false
  }

  /** Some map of the chain defines the term as `def` and no nearer one
    * defines it. */
  ghost predicate DefinedFirst<D>(c: seq<map<string, D>>, term: string, def: D) {
    exists i :: 0 <= i < |c| && term in c[i] && c[i][term] == def
      && forall j :: 0 <= j < i ==> term !in c[j]
  }

  /** `contains` holds exactly when some map of the chain defines the term
    * as `def` and no nearer one defines it. */
  lemma {:induction false} ContainsMeaning<D>(b: Builder<D>, term: string, def: D)
    ensures Contains(b, term, def) <==> DefinedFirst(Chain(b), term, def)
    decreases b
  {
    var c := Chain(b);
    if term in b.terms {
      DefinedHere(c, term, def);
    } else {
      match b.parent
      case None =>
        assert c == [b.terms];
        DefinedNowhere(c, term, def);
      case Some(p) =>
        ContainsMeaning(p, term, def);
        assert c == [b.terms] + Chain(p);
        DefinedFurther(b.terms, Chain(p), term, def);
    }
  }

  /** A term the nearest map defines is defined first there. */
  lemma DefinedHere<D>(c: seq<map<string, D>>, term: string, def: D)
    requires |c| > 0 && term in c[0]
    ensures DefinedFirst(c, term, def) <==> c[0][term] == def
  {
    if c[0][term] == def {
      assert term in c[0] && c[0][term] == def;
    }
  }

  /** A chain of one map without the term does not define it. */
  lemma DefinedNowhere<D>(c: seq<map<string, D>>, term: string, def: D)
    requires |c| == 1 && term !in c[0]
    ensures !DefinedFirst(c, term, def)
  {
  }

  /** A map without the term leaves the rest of the chain to define it. */
  lemma DefinedFurther<D>(m: map<string, D>, cp: seq<map<string, D>>, term: string, def: D)
    requires term !in m
    ensures DefinedFirst([m] + cp, term, def) <==> DefinedFirst(cp, term, def)
  {
    var c := [m] + cp;
    if DefinedFirst(cp, term, def) {
      var i :| 0 <= i < |cp| && term in cp[i] && cp[i][term] == def && forall j :: 0 <= j < i ==> term !in cp[j];
      assert c[i + 1] == cp[i];
      assert forall j :: 0 < j < i + 1 ==> c[j] == cp[j - 1];
    }
    if DefinedFirst(c, term, def) {
      var i :| 0 <= i < |c| && term in c[i] && c[i][term] == def && forall j :: 0 <= j < i ==> term !in c[j];
      assert i > 0;
      assert cp[i - 1] == c[i];
      assert forall j :: 0 <= j < i - 1 ==> cp[j] == c[j + 1];
    }
  }

  /** Whether the parent chain already holds the definition. */
  predicate ParentContains<D(==)>(b: Builder<D>, term: string, def: D) {
    match b.parent
    case Some(p) => Contains(p, term, def)
    case None => false
  }

  /** `ContextBuilder::insert`, as written: a definition the parent chain
    * already holds is not repeated; a new term is bound; a term already
    * bound to another definition is ambiguous. */
  function Insert<D(==)>(b: Builder<D>, term: string, def: D): (r: Result<Builder<D>, Error>)
    ensures ParentContains(b, term, def) ==> r == Success(b)
    ensures !ParentContains(b, term, def) && term !in b.terms ==> r == Success(b.(terms := b.terms[term := def]))
    ensures r.Failure? <==> !ParentContains(b, term, def) && term in b.terms && b.terms[term] != def
    ensures r.Failure? ==> r.error == Ambiguity(term)
    ensures r.Success? ==> r.value.parent == b.parent && r.value.doPropagate == b.doPropagate
  {
    if ParentContains(b, term, def) then Success(b)
    else if term !in b.terms then Success(b.(terms := b.terms[term := def]))
    else if b.terms[term] != def then Failure(Ambiguity(term))
    else Success(b)
  }

  /** As written, an insertion can succeed while the builder binds the
    * term to another definition: the parent's identical definition hides
    * the conflict with this builder's own. */
  lemma InsertHidesConflict()
    ensures var parent := Builder(map["name" := 2], true, None);
      var b := Builder(map["name" := 1], true, Some(parent));
      Insert(b, "name", 2) == Success(b) && !Contains(b, "name", 2)
  {
  }

  /** `insert` with the builder's own binding checked first: the term then
    * denotes the inserted definition whenever the insertion succeeds, and
    * it fails exactly on a conflicting binding of the builder itself. */
  function InsertChecked<D(==)>(b: Builder<D>, term: string, def: D): (r: Result<Builder<D>, Error>)
    ensures r.Success? ==> Contains(r.value, term, def)
    ensures r.Success? ==> r.value.parent == b.parent && r.value.doPropagate == b.doPropagate
    ensures r.Failure? <==> term in b.terms && b.terms[term] != def
    ensures r.Failure? ==> r.error == Ambiguity(term)
    ensures term !in b.terms && ParentContains(b, term, def) ==> r == Success(b)
  {
    if term in b.terms then
      if b.terms[term] != def then Failure(Ambiguity(term)) else Success(b)
    else if ParentContains(b, term, def) then Success(b)
    else Success(b.(terms := b.terms[term := def]))
  }

  /** The checked insertion agrees with the written one whenever the
    * builder has no binding of its own for the term. */
  lemma InsertCheckedAgrees<D>(b: Builder<D>, term: string, def: D)
    requires term !in b.terms
    ensures InsertChecked(b, term, def) == Insert(b, term, def)
  {
  }

  /** The field a term definition comes from: its name and, if it has one,
    * the property it stands for. */
  datatype Field<D> = Field(name: string, property: Option<D>)

  /** `ContextBuilder::insert_field`: a field without a property defines no
    * term; one with a property is inserted as written, so it fails only on
    * a conflicting binding of the builder that the parent chain does not
    * already hold, and after success the field's term denotes its property
    * unless the parent chain held it already. */
  function InsertField<D(==)>(b: Builder<D>, f: Field<D>): (r: Result<Builder<D>, Error>)
    ensures f.property.None? ==> r == Success(b)
    ensures f.property.Some? ==>
      (r.Failure? <==> !ParentContains(b, f.name, f.property.value) && f.name in b.terms && b.terms[f.name] != f.property.value)
    ensures f.property.Some? && r.Success? ==>
      Contains(r.value, f.name, f.property.value) || ParentContains(b, f.name, f.property.value)
    ensures f.property.Some? && r.Success? && f.name !in b.terms ==> Contains(r.value, f.name, f.property.value)
  {
    match f.property
    case None => Success(b)
    case Some(d) =>
      Insert(b, f.name, d)
  }

  /** `ContextBuilder::build`: the term bindings of the built context,
    * every term of the builder except the keywords `@type` and `@id`. */
  function Build<D>(b: Builder<D>): (r: map<string, D>)
    ensures forall t :: t in r <==> t in b.terms && t != "@type" && t != "@id"
    ensures forall t :: t in r ==> r[t] == b.terms[t]
  {
    map t | t in b.terms && t != "@type" && t != "@id" :: b.terms[t]
  }

  /** The primitive layouts of the model the generator reads. */
  datatype LayoutPrimitive =
    | Boolean | Integer | UnsignedInteger | Float | Double | String
    | Time | Date | DateTime | Iri | Uri | Url

  const XsdNamespace := "http://www.w3.org/2001/XMLSchema#"

  /** The local name, in the XSD namespace, of a primitive's datatype. */
  function XsdName(p: LayoutPrimitive): string {
    match p
    case Boolean => "boolean"
    case Integer => "integer"
    case UnsignedInteger => "nonNegativeInteger"
    case Float => "float"
    case Double => "double"
    case String => "string"
    case Time => "time"
    case Date => "date"
    case DateTime => "dateTime"
    case Iri => "anyURI"
    case Uri => "anyURI"
    case Url => "anyURI"
  }

  /** `generate_primitive_type`: the XSD datatype IRI used as `@type`;
    * IRIs, URIs and URLs are all `xsd:anyURI`. */
  function GeneratePrimitiveType(p: LayoutPrimitive): (iri: string)
    ensures |iri| > |XsdNamespace| && iri[..|XsdNamespace|] == XsdNamespace
    ensures p == Iri || p == Uri || p == Url ==> iri == XsdNamespace + "anyURI"
  {
    XsdNamespace + XsdName(p)
  }

  /** Apart from the IRI-like primitives, no two primitives get the same
    * datatype. */
  lemma GeneratePrimitiveTypeInjective(p: LayoutPrimitive, q: LayoutPrimitive)
    requires GeneratePrimitiveType(p) == GeneratePrimitiveType(q)
    ensures p == q || (p in {Iri, Uri, Url} && q in {Iri, Uri, Url})
  {
    var n := |XsdNamespace|;
    assert XsdName(p) == GeneratePrimitiveType(p)[n..];
    assert XsdName(q) == GeneratePrimitiveType(q)[n..];
  }
}
