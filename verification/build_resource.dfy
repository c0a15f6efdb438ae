/**
 * Resource definitions of the build crate (`build/src/resource.rs`): the
 * checks that a node has a given type, where having a type means having
 * it or one of its subclasses among the node's declared types, and the
 * choice of which parts of a node get built.
 */
module Resources {
  import opened Wrappers
  import opened Ids
  import opened BuildContext

  /** `rdfs:Class`, the type `Class(None)`. */
  const ClassType: Id := Iri(10)
  /** `rdf:Property`, the type `Property(None)`. */
  const PropertyType: Id := Iri(11)
  /** The type of layout components, `Component(None)`. */
  const ComponentType: Id := Iri(12)
  /** `tldr:Layout`. */
  const LayoutType: Id := Iri(13)
  /** `tldr:LayoutRestriction`. */
  const LayoutRestrictionType: Id := Iri(14)
  /** `owl:Restriction`, the restriction subclass of classes. */
  const RestrictionType: Id := Iri(15)

  /** `has_type`: one of the declared types of the node is `a` or a
    * subclass of it. */
  predicate HasType<M>(ctx: Context<M>, isDatatype: Id -> bool, d: Definition<M>, a: Id) {
    exists b :: b in d.types && IsSubclassOfOrEq(ctx, isDatatype, a, b)
  }

  /** A node's type error: the node, the type expected, and the types
    * found. */
  datatype NodeTypeInvalid = NodeTypeInvalid(id: Id, expected: Id, found: set<Id>)

  /** The shared shape of the `require_*` checks: the node's identifier
    * when it has the expected type, an error naming it otherwise. */
  function Require<M>(ctx: Context<M>, isDatatype: Id -> bool, d: Definition<M>, expected: Id): (r: Result<Id, NodeTypeInvalid>)
    ensures r.Success? <==> HasType(ctx, isDatatype, d, expected)
    ensures r.Success? ==> r.value == d.id
    ensures r.Failure? ==> r.error == NodeTypeInvalid(d.id, expected, d.types)
  {
    if HasType(ctx, isDatatype, d, expected) then Success(d.id)
    else Failure(NodeTypeInvalid(d.id, expected, d.types))
  }

  /** `require_type`: the node must be a class. */
  function RequireType<M>(ctx: Context<M>, isDatatype: Id -> bool, d: Definition<M>): (r: Result<Id, NodeTypeInvalid>)
    ensures r.Success? <==> exists b :: b in d.types && IsSubclassOfOrEq(ctx, isDatatype, ClassType, b)
    ensures r.Failure? ==> r.error.expected == ClassType
  {
    Require(ctx, isDatatype, d, ClassType)
  }

  /** `require_layout`: the node must be a layout. */
  function RequireLayout<M>(ctx: Context<M>, isDatatype: Id -> bool, d: Definition<M>): (r: Result<Id, NodeTypeInvalid>)
    ensures r.Success? <==> exists b :: b in d.types && IsSubclassOfOrEq(ctx, isDatatype, LayoutType, b)
    ensures r.Failure? ==> r.error.expected == LayoutType
  {
    Require(ctx, isDatatype, d, LayoutType)
  }

  /** `require_restriction`: the node must be an OWL restriction. */
  function RequireRestriction<M>(ctx: Context<M>, isDatatype: Id -> bool, d: Definition<M>): (r: Result<Id, NodeTypeInvalid>)
    ensures r.Success? <==> exists b :: b in d.types && IsSubclassOfOrEq(ctx, isDatatype, RestrictionType, b)
    ensures r.Failure? ==> r.error.expected == RestrictionType
  {
    Require(ctx, isDatatype, d, RestrictionType)
  }

  /** `require_restriction_id`: the node must be a layout restriction. */
  function RequireRestrictionId<M>(ctx: Context<M>, isDatatype: Id -> bool, d: Definition<M>): (r: Result<Id, NodeTypeInvalid>)
    ensures r.Success? <==> exists b :: b in d.types && IsSubclassOfOrEq(ctx, isDatatype, LayoutRestrictionType, b)
    ensures r.Failure? ==> r.error.expected == LayoutRestrictionType
  {
    Require(ctx, isDatatype, d, LayoutRestrictionType)
  }

  /** A node is of every type it declares, and a new node is of none. */
  lemma HasTypeMeaning<M>(ctx: Context<M>, isDatatype: Id -> bool, d: Definition<M>, a: Id, meta: M)
    ensures a in d.types ==> HasType(ctx, isDatatype, d, a)
    ensures !HasType(ctx, isDatatype, NewDefinition(d.id, meta), a)
    ensures RequireType(ctx, isDatatype, NewDefinition(d.id, meta)).Failure?
  {
    if a in d.types {
      assert IsSubclassOfOrEq(ctx, isDatatype, a, a);
    }
  }

  /** `require_restriction_id` checks the layout restriction type, not the
    * restriction class that `require_restriction` checks: a node declared
    * only as an OWL restriction, in a context that knows no classes, passes
    * the one and fails the other. */
  lemma RequireRestrictionIdDiffers(d: Definition<int>)
    requires d.types == {RestrictionType}
    ensures RequireRestriction(map[], _ => false, d).Success?
    ensures RequireRestrictionId(map[], _ => false, d).Failure?
  {
    var ctx: Context<int> := map[];
    assert IsSubclassOfOrEq(ctx, _ => false, RestrictionType, RestrictionType);
    UnknownIsNoSubclass(ctx, _ => false, LayoutRestrictionType, RestrictionType);
  }

  /** The parts of a node that `build` builds. */
  datatype Built = Built(ty: bool, property: bool, component: bool)

  /** `build`: the class part is built for classes, the property part for
    * properties, and the component part for layout components. */
  function Build<M>(ctx: Context<M>, isDatatype: Id -> bool, d: Definition<M>): (r: Built)
    ensures r.ty <==> RequireType(ctx, isDatatype, d).Success?
    ensures r.property <==> HasType(ctx, isDatatype, d, PropertyType)
    ensures r.component <==> HasType(ctx, isDatatype, d, ComponentType)
  {
    Built(HasType(ctx, isDatatype, d, ClassType), HasType(ctx, isDatatype, d, PropertyType), HasType(ctx, isDatatype, d, ComponentType))
  }

  /** A new node builds nothing; a node declared a class, a property and a
    * component builds all three. */
  lemma BuildMeaning<M>(ctx: Context<M>, isDatatype: Id -> bool, d: Definition<M>, meta: M)
    ensures Build(ctx, isDatatype, NewDefinition(d.id, meta)) == Built(false, false, false)
    ensures {ClassType, PropertyType, ComponentType} <= d.types ==> Build(ctx, isDatatype, d) == Built(true, true, true)
  {
    HasTypeMeaning(ctx, isDatatype, d, ClassType, meta);
    HasTypeMeaning(ctx, isDatatype, d, PropertyType, meta);
    HasTypeMeaning(ctx, isDatatype, d, ComponentType, meta);
  }
}
