/**
 * The nodes of the build crate (`build/src/node.rs`): a node has
 * up to six components (type, property, layout, layout field, layout
 * variant, list), each present or absent with the metadata that caused it.
 * The definitions inside components are abstracted to that metadata.
 */
module BuildNodes {
  import opened Wrappers
  import opened Ids

  datatype Kind = TypeKind | PropertyKind | LayoutKind | LayoutFieldKind | LayoutVariantKind | ListKind

  datatype Components<M> = Components(
    ty: Option<M>,
    property: Option<M>,
    layout: Option<M>,
    layoutField: Option<M>,
    layoutVariant: Option<M>,
    list: Option<M>)

  /** A node: its identifier, its label, and its components. */
  datatype Node<M> = Node(id: Id, name: Option<string>, value: Components<M>)

  /** The component of a kind. */
  function Get<M>(c: Components<M>, k: Kind): Option<M> {
    match k
    case TypeKind => c.ty
    case PropertyKind => c.property
    case LayoutKind => c.layout
    case LayoutFieldKind => c.layoutField
    case LayoutVariantKind => c.layoutVariant
    case ListKind => c.list
  }

  /** Replaces the component of a kind. */
  function Set<M>(c: Components<M>, k: Kind, v: Option<M>): (r: Components<M>)
    ensures Get(r, k) == v
    ensures forall j :: j != k ==> Get(r, j) == Get(c, j)
  {
    match k
    case TypeKind => c.(ty := v)
    case PropertyKind => c.(property := v)
    case LayoutKind => c.(layout := v)
    case LayoutFieldKind => c.(layoutField := v)
    case LayoutVariantKind => c.(layoutVariant := v)
    case ListKind => c.(list := v)
  }

  /** `Node::new`: no label and no component. */
  function NewNode<M>(id: Id): Node<M> {
    Node(id, None, Components(None, None, None, None, None, None))
  }

  /** A new node has its identifier, no label and no component. */
  lemma NewNodeIsBare<M>(id: Id)
    ensures NewNode<M>(id).id == id && NewNode<M>(id).name.None?
    ensures forall k :: Get(NewNode<M>(id).value, k).None?
  {
  }

  /** `new_type`, `new_property`, `new_layout`, `new_layout_field`,
    * `new_layout_variant` and `new_list`: a node with exactly the one
    * component, caused by `meta`. */
  function NewWith<M>(id: Id, k: Kind, meta: M): (n: Node<M>)
    ensures n.id == id && n.name.None?
    ensures Get(n.value, k) == Some(meta)
    ensures forall j :: j != k ==> Get(n.value, j).None?
  {
    var n: Node<M> := NewNode(id);
    n.(value := Set(n.value, k, Some(meta)))
  }

  /** `new_type`: a node that is a type and nothing else. */
  function NewType<M>(id: Id, meta: M): (n: Node<M>)
    ensures n.value.ty == Some(meta)
    ensures n.value.property.None? && n.value.layout.None? && n.value.layoutField.None?
    ensures n.value.layoutVariant.None? && n.value.list.None?
  {
    NewWith(id, TypeKind, meta)
  }

  /** Which components a node has. */
  datatype Types = Types(ty: bool, property: bool, layout: bool, layoutField: bool, layoutVariant: bool, list: bool)

  function Has(t: Types, k: Kind): bool {
    match k
    case TypeKind => t.ty
    case PropertyKind => t.property
    case LayoutKind => t.layout
    case LayoutFieldKind => t.layoutField
    case LayoutVariantKind => t.layoutVariant
    case ListKind => t.list
  }

  /** `types`: a flag per component, set exactly when it is present. */
  function TypesOf<M>(n: Node<M>): (t: Types)
    ensures forall k :: Has(t, k) <==> Get(n.value, k).Some?
  {
    Types(n.value.ty.Some?, n.value.property.Some?, n.value.layout.Some?,
          n.value.layoutField.Some?, n.value.layoutVariant.Some?, n.value.list.Some?)
  }

  /** `declare_type` and the other `declare_*`: a missing component is
    * created with `cause`; a present one is left as it is. */
  function Declare<M>(n: Node<M>, k: Kind, cause: M): (r: Node<M>)
    ensures r.id == n.id && r.name == n.name
    ensures Get(n.value, k).Some? ==> r == n
    ensures Get(n.value, k).None? ==> Get(r.value, k) == Some(cause)
    ensures forall j :: j != k ==> Get(r.value, j) == Get(n.value, j)
  {
    if Get(n.value, k).Some? then n
    else n.(value := Set(n.value, k, Some(cause)))
  }

  /** Declaring twice is declaring once: the first cause is kept. */
  lemma DeclareOnce<M>(n: Node<M>, k: Kind, first: M, second: M)
    ensures Declare(Declare(n, k, first), k, second) == Declare(n, k, first)
    ensures TypesOf(Declare(n, k, first)) == TypesOf(Declare(n, k, second))
  {
    var a := Declare(n, k, first);
    var b := Declare(n, k, second);
    assert forall j :: Has(TypesOf(a), j) == Has(TypesOf(b), j);
    assert TypesOf(a).ty == Has(TypesOf(a), TypeKind) && TypesOf(b).ty == Has(TypesOf(b), TypeKind);
    assert TypesOf(a).property == Has(TypesOf(a), PropertyKind) && TypesOf(b).property == Has(TypesOf(b), PropertyKind);
    assert TypesOf(a).layout == Has(TypesOf(a), LayoutKind) && TypesOf(b).layout == Has(TypesOf(b), LayoutKind);
    assert TypesOf(a).layoutField == Has(TypesOf(a), LayoutFieldKind) && TypesOf(b).layoutField == Has(TypesOf(b), LayoutFieldKind);
    assert TypesOf(a).layoutVariant == Has(TypesOf(a), LayoutVariantKind) && TypesOf(b).layoutVariant == Has(TypesOf(b), LayoutVariantKind);
    assert TypesOf(a).list == Has(TypesOf(a), ListKind) && TypesOf(b).list == Has(TypesOf(b), ListKind);
  }

  /** The error of a `require_*`: the node, the component kind expected,
    * and the components found. */
  datatype NodeInvalidType = NodeInvalidType(id: Id, expected: Kind, found: Types)

  /** `require_type`, `require_layout`, `require_layout_field`,
    * `require_layout_variant`, `require_list` and their `_mut` forms. */
  function Require<M>(n: Node<M>, k: Kind): (r: Result<M, NodeInvalidType>)
    ensures r.Success? <==> Get(n.value, k).Some?
    ensures r.Success? ==> Some(r.value) == Get(n.value, k)
    ensures r.Failure? ==> r.error == NodeInvalidType(n.id, k, TypesOf(n)) && !Has(r.error.found, k)
  {
    match Get(n.value, k)
    case Some(m) => Success(m)
    case None => Failure(NodeInvalidType(n.id, k, TypesOf(n)))
  }

  /** A declared component is always found. */
  lemma RequireAfterDeclare<M>(n: Node<M>, k: Kind, cause: M)
    ensures Require(Declare(n, k, cause), k).Success?
    ensures Get(n.value, k).None? ==> Require(Declare(n, k, cause), k) == Success(cause)
    ensures forall j :: j != k ==> Require(Declare(n, k, cause), j).Success? == Require(n, j).Success?
  {
  }

  /** `require_property_or_layout_field_mut`: both components when either
    * is present, and otherwise an error expecting a property. */
  function RequirePropertyOrLayoutField<M>(n: Node<M>): (r: Result<(Option<M>, Option<M>), NodeInvalidType>)
    ensures r.Success? <==> n.value.property.Some? || n.value.layoutField.Some?
    ensures r.Success? ==> r.value == (n.value.property, n.value.layoutField)
    ensures r.Failure? ==> r.error == NodeInvalidType(n.id, PropertyKind, TypesOf(n))
  {
    if n.value.property.Some? || n.value.layoutField.Some? then Success((n.value.property, n.value.layoutField))
    else Failure(NodeInvalidType(n.id, PropertyKind, TypesOf(n)))
  }

  /** `require_layout_field_or_variant_mut`: both components when either is
    * present, and otherwise an error expecting a layout field. */
  function RequireLayoutFieldOrVariant<M>(n: Node<M>): (r: Result<(Option<M>, Option<M>), NodeInvalidType>)
    ensures r.Success? <==> n.value.layoutField.Some? || n.value.layoutVariant.Some?
    ensures r.Success? ==> r.value == (n.value.layoutField, n.value.layoutVariant)
    ensures r.Failure? ==> r.error == NodeInvalidType(n.id, LayoutFieldKind, TypesOf(n))
  {
    if n.value.layoutField.Some? || n.value.layoutVariant.Some? then Success((n.value.layoutField, n.value.layoutVariant))
    else Failure(NodeInvalidType(n.id, LayoutFieldKind, TypesOf(n)))
  }

  /** The combined requirements succeed exactly when one of the single ones
    * does. */
  lemma RequireEitherMeaning<M>(n: Node<M>)
    ensures RequirePropertyOrLayoutField(n).Success? <==>
      Require(n, PropertyKind).Success? || Require(n, LayoutFieldKind).Success?
    ensures RequireLayoutFieldOrVariant(n).Success? <==>
      Require(n, LayoutFieldKind).Success? || Require(n, LayoutVariantKind).Success?
  {
  }
}
