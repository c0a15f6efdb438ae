/**
 * Node kinds, properties and the single-value iterator of the core model
 * (`core/src/node.rs`).  The sub-kinds of classes, properties and
 * components are indices whose subclass relations are parameters, as are
 * the identifiers and `expect_type` answers of the property families
 * defined elsewhere.
 */
module CoreNodes {
  import opened Wrappers
  import opened ToRdf
  import opened CoreVocab

  /** `node::Type`. */
  datatype NodeType =
    | LiteralType
    | ClassType(sub: Option<nat>)
    | DatatypeRestrictionType
    | PropertyType(sub: Option<nat>)
    | ComponentType(sub: Option<nat>)
    | LayoutRestrictionType
    | ListType

  /** The subclass relations among the sub-kinds of each family. */
  datatype SubRelations = SubRelations(
    classSub: (nat, nat) -> bool,
    propertySub: (nat, nat) -> bool,
    componentSub: (nat, nat) -> bool)

  function FamilySubclass(rel: (nat, nat) -> bool, a: Option<nat>, b: Option<nat>): bool {
    match (a, b)
    case (Some(_), None) => true
    case (Some(x), Some(y)) => rel(x, y)
    case _ => false
  }

  /** `Type::is_subclass_of`. */
  function IsSubclassOf(rels: SubRelations, a: NodeType, b: NodeType): (r: bool)
    ensures a.LiteralType? || a.DatatypeRestrictionType? || a.LayoutRestrictionType? || a.ListType? ==> !r
    ensures r ==> (a.ClassType? && b.ClassType?) || (a.PropertyType? && b.PropertyType?) || (a.ComponentType? && b.ComponentType?)
  {
    match (a, b)
    case (ClassType(x), ClassType(y)) => FamilySubclass(rels.classSub, x, y)
    case (PropertyType(x), PropertyType(y)) => FamilySubclass(rels.propertySub, x, y)
    case (ComponentType(x), ComponentType(y)) => FamilySubclass(rels.componentSub, x, y)
    case _ => false
  }

  /** Each sub-kind is below its family's general kind, which is below
    * nothing. */
  lemma IsSubclassOfTop(rels: SubRelations, a: NodeType, x: nat)
    ensures IsSubclassOf(rels, ClassType(Some(x)), ClassType(None))
    ensures IsSubclassOf(rels, PropertyType(Some(x)), PropertyType(None))
    ensures IsSubclassOf(rels, ComponentType(Some(x)), ComponentType(None))
    ensures !IsSubclassOf(rels, ClassType(None), a)
    ensures !IsSubclassOf(rels, PropertyType(None), a)
    ensures !IsSubclassOf(rels, ComponentType(None), a)
  {
  }

  ghost predicate StrictOrder(rel: (nat, nat) -> bool) {
    && (forall x :: !rel(x, x))
    && (forall x, y, z :: rel(x, y) && rel(y, z) ==> rel(x, z))
  }

  /** When the sub-kind relations are strict orders, so is the relation
    * on node types. */
  lemma IsSubclassOfStrictOrder(rels: SubRelations, a: NodeType, b: NodeType, c: NodeType)
    requires StrictOrder(rels.classSub) && StrictOrder(rels.propertySub) && StrictOrder(rels.componentSub)
    ensures !IsSubclassOf(rels, a, a)
    ensures IsSubclassOf(rels, a, b) && IsSubclassOf(rels, b, c) ==> IsSubclassOf(rels, a, c)
  {
  }

  /** The property families defined in other modules, with their own
    * identifiers and `expect_type` answers. */
  datatype Family = ClassFamily | DatatypeRestrictionFamily | RdfPropertyFamily | ComponentFamily | LayoutRestrictionFamily | ListFamily

  /** `node::Property`: the four resource properties, each possibly
    * refined by a sub-property, and the properties of the families. */
  datatype Property =
    | SelfProperty(sub: Option<nat>)
    | TypeProperty(sub: Option<nat>)
    | LabelProperty(sub: Option<nat>)
    | CommentProperty(sub: Option<nat>)
    | FamilyProperty(family: Family, p: nat)

  /** What the core knows about sub-properties and family properties. */
  datatype PropertyInfo = PropertyInfo(
    subId: nat -> Id,
    familyId: (Family, nat) -> Id,
    familyExpectType: (Family, nat) -> bool)

  function ResourceTerm(p: Property): Term
    requires !p.FamilyProperty?
  {
    match p
    case SelfProperty(_) => TldrSelf
    case TypeProperty(_) => RdfType
    case LabelProperty(_) => RdfsLabel
    case CommentProperty(_) => RdfsComment
  }

  /** `Property::id`: a resource property without a sub-property is its
    * vocabulary IRI; with one it is the sub-property's identifier. */
  function PropertyId(info: PropertyInfo, p: Property): (id: Id)
    ensures !p.FamilyProperty? && p.sub.None? ==> id == Iri(ResourceTerm(p))
    ensures !p.FamilyProperty? && p.sub.Some? ==> id == info.subId(p.sub.value)
    ensures p.FamilyProperty? ==> id == info.familyId(p.family, p.p)
  {
    match p
    case SelfProperty(None) => Iri(TldrSelf)
    case SelfProperty(Some(s)) => info.subId(s)
    case TypeProperty(None) => Iri(RdfType)
    case TypeProperty(Some(s)) => info.subId(s)
    case LabelProperty(None) => Iri(RdfsLabel)
    case LabelProperty(Some(s)) => info.subId(s)
    case CommentProperty(None) => Iri(RdfsComment)
    case CommentProperty(Some(s)) => info.subId(s)
    case FamilyProperty(f, q) => info.familyId(f, q)
  }

  /** `Property::term`: only the unrefined resource properties, and the
    * family properties that have one, are vocabulary terms. */
  function PropertyTerm(familyTerm: (Family, nat) -> Option<Term>, p: Property): (t: Option<Term>)
    ensures !p.FamilyProperty? ==> (t.Some? <==> p.sub.None?)
  {
    match p
    case FamilyProperty(f, q) => familyTerm(f, q)
    case _ => if p.sub.None? then Some(ResourceTerm(p)) else None
  }

  /** The four unrefined resource properties have distinct identifiers,
    * the IRIs of their terms. */
  lemma ResourcePropertyIds(info: PropertyInfo, familyTerm: (Family, nat) -> Option<Term>, p: Property, q: Property)
    requires !p.FamilyProperty? && !q.FamilyProperty? && p.sub.None? && q.sub.None?
    ensures PropertyTerm(familyTerm, p) == Some(ResourceTerm(p))
    ensures PropertyId(info, p) == Iri(PropertyTerm(familyTerm, p).value)
    ensures PropertyId(info, p) == PropertyId(info, q) <==> p == q
  {
  }

  /** `Property::expect_type`: the type property, refined or not, and the
    * family properties that say so. */
  function ExpectType(info: PropertyInfo, p: Property): (r: bool)
    ensures p.SelfProperty? || p.LabelProperty? || p.CommentProperty? ==> !r
    ensures p.TypeProperty? ==> r
  {
    match p
    case TypeProperty(_) => true
    case FamilyProperty(f, q) => info.familyExpectType(f, q)
    case _ => false
  }

  // The identifier iterator of a multiple-valued binding.

  /** `MultipleIdValueIter`: a single value not yet taken, or what remains
    * of a property-values or multiple-values iterator. */
  datatype IdIter<T> = Single(value: Option<T>) | PropertyValues(rest: seq<T>) | Multiple(rest: seq<T>)

  /** `size_hint`: the exact number of values left, as lower and upper
    * bound. */
  function SizeHint<T>(it: IdIter<T>): (r: (nat, Option<nat>))
    ensures r.1 == Some(r.0)
    ensures it.Single? ==> (r.0 == 1 <==> it.value.Some?) && r.0 <= 1
  {
    match it
    case Single(Some(_)) => (1, Some(1))
    case Single(None) => (0, Some(0))
    case PropertyValues(rest) => (|rest|, Some(|rest|))
    case Multiple(rest) => (|rest|, Some(|rest|))
  }

  /** `next`: takes the single value, or the next one left. */
  function Next<T>(it: IdIter<T>): (r: (IdIter<T>, Option<T>))
    ensures r.1.None? <==> SizeHint(it).0 == 0
    ensures r.1.Some? ==> SizeHint(r.0).0 == SizeHint(it).0 - 1
    ensures r.1.None? ==> r.0 == it
  {
    match it
    case Single(v) => (Single(None), v)
    case PropertyValues(rest) => if rest == [] then (it, None) else (PropertyValues(rest[1..]), Some(rest[0]))
    case Multiple(rest) => if rest == [] then (it, None) else (Multiple(rest[1..]), Some(rest[0]))
  }

  /** `iter` on a binding value: the values an iterator yields. */
  function Values<T>(it: IdIter<T>): seq<T> {
    match it
    case Single(v) => if v.Some? then [v.value] else []
    case PropertyValues(rest) => rest
    case Multiple(rest) => rest
  }

  /** All the values, by calling `next` until it returns nothing. */
  function Drain<T>(it: IdIter<T>): (r: seq<T>)
    decreases SizeHint(it).0
  {
    var n := Next(it);
    if n.1.None? then [] else [n.1.value] + Drain(n.0)
  }

  /** The iterator yields its values in order, as many as its size hint
    * announced. */
  lemma {:induction false} DrainValues<T>(it: IdIter<T>)
    ensures Drain(it) == Values(it)
    ensures |Drain(it)| == SizeHint(it).0
    decreases SizeHint(it).0
  {
    var n := Next(it);
    if n.1.Some? {
      DrainValues(n.0);
    }
  }

  /** A single value is yielded once, with size hint 1 before and 0 after. */
  lemma SingleOnce<T>(v: T)
    ensures SizeHint(Single(Some(v))) == (1, Some(1))
    ensures Next(Single(Some(v))) == (Single(None), Some(v))
    ensures SizeHint(IdIter<T>.Single(None)) == (0, Some(0))
    ensures Next(IdIter<T>.Single(None)).1 == None
  {
  }
}
