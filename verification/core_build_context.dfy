/**
 * The build context of the core crate (`core/src/build/context.rs` and
 * `core/src/build/node.rs`): nodes by identifier, each with up to five
 * components (type, property, layout, layout field, list).  A component is
 * recorded by the cause that first declared it; the definitions inside
 * components are left out.
 */
module CoreBuildContext {
  import opened Wrappers
  import CoreVocab

  type Id = CoreVocab.Id

  /** `node::Type` as the core build uses it. */
  datatype Kind = TypeKind | PropertyKind | LayoutKind | LayoutFieldKind | ListKind

  /** A node: its identifier and, for each component it has, the cause
    * (possibly unknown) of its declaration. */
  datatype Node<C> = Node(id: Id, components: map<Kind, Option<C>>)

  /** The nodes of a context, by identifier. */
  type Context<C> = map<Id, Node<C>>

  /** Every node is stored under its own identifier. */
  predicate WellKeyed<C>(ctx: Context<C>) {
    forall id :: id in ctx ==> ctx[id].id == id
  }

  /** The empty list `rdf:nil`. */
  const NilId: Id := CoreVocab.Iri(CoreVocab.RdfNil)

  /** `Node::new_type` and the other `new_*`: a node with exactly the one
    * component. */
  function NewNode<C>(id: Id, k: Kind, cause: Option<C>): (n: Node<C>)
    ensures n.id == id && n.components.Keys == {k} && n.components[k] == cause
  {
    Node(id, map[k := cause])
  }

  /** `Node::declare_*`: a missing component is created; a present one is
    * kept. */
  function DeclareOnNode<C>(n: Node<C>, k: Kind, cause: Option<C>): (r: Node<C>)
    ensures r.id == n.id
    ensures r.components.Keys == n.components.Keys + {k}
    ensures k in n.components ==> r == n
    ensures k !in n.components ==> r.components[k] == cause
    ensures forall j :: j in n.components ==> r.components[j] == n.components[j]
  {
    if k in n.components then n else n.(components := n.components[k := cause])
  }

  /** `Context::declare_type`, `declare_property`, `declare_layout` and
    * `declare_layout_field`: the component is added to the node of that
    * identifier, which is created when there is none; every other node,
    * and every component already present, stays as it was. */
  function Declare<C>(ctx: Context<C>, id: Id, k: Kind, cause: Option<C>): (r: Context<C>)
    ensures r.Keys == ctx.Keys + {id}
    ensures k in r[id].components
    ensures id !in ctx ==> r[id] == NewNode(id, k, cause)
    ensures id in ctx ==> r[id].id == ctx[id].id && r[id].components.Keys == ctx[id].components.Keys + {k}
    ensures id in ctx ==> forall j :: j in ctx[id].components ==> r[id].components[j] == ctx[id].components[j]
    ensures forall other :: other in ctx && other != id ==> r[other] == ctx[other]
    ensures WellKeyed(ctx) ==> WellKeyed(r)
  {
    if id in ctx then ctx[id := DeclareOnNode(ctx[id], k, cause)]
    else ctx[id := NewNode(id, k, cause)]
  }

  /** `Context::declare_type`. */
  function DeclareType<C>(ctx: Context<C>, id: Id, cause: Option<C>): (r: Context<C>)
    ensures r.Keys == ctx.Keys + {id} && TypeKind in r[id].components
    ensures id !in ctx ==> r[id] == NewNode(id, TypeKind, cause)
    ensures forall other :: other in ctx && other != id ==> r[other] == ctx[other]
  {
    Declare(ctx, id, TypeKind, cause)
  }

  /** `Context::declare_list`: `rdf:nil` is never declared, being the empty
    * list rather than a node; any other identifier is declared a list. */
  function DeclareList<C>(ctx: Context<C>, id: Id, cause: Option<C>): (r: Context<C>)
    ensures id == NilId ==> r == ctx
    ensures id != NilId ==> r.Keys == ctx.Keys + {id} && ListKind in r[id].components
    ensures forall other :: other in ctx && other != id ==> r[other] == ctx[other]
  {
    if id == NilId then ctx else Declare(ctx, id, ListKind, cause)
  }

  /** Declaring a component twice is declaring it once: the first cause is
    * kept. */
  lemma DeclareIdempotent<C>(ctx: Context<C>, id: Id, k: Kind, first: Option<C>, second: Option<C>)
    ensures Declare(Declare(ctx, id, k, first), id, k, second) == Declare(ctx, id, k, first)
  {
    var once := Declare(ctx, id, k, first);
    assert DeclareOnNode(once[id], k, second) == once[id];
  }

  /** The errors of the context. */
  datatype Error =
    | UnknownNode(id: Id, expectedTy: Option<Kind>)
    | InvalidNodeType(id: Id, expected: Kind, found: set<Kind>)

  /** An error with the cause of the request that raised it. */
  datatype Caused<C> = Caused(error: Error, cause: Option<C>)

  /** `Context::require_mut`: the node of an identifier, or an unknown node
    * error expecting no particular component. */
  function RequireNode<C>(ctx: Context<C>, id: Id, cause: Option<C>): (r: Result<Node<C>, Caused<C>>)
    ensures r.Success? <==> id in ctx
    ensures r.Success? ==> r.value == ctx[id]
    ensures r.Failure? ==> r.error == Caused(UnknownNode(id, None), cause)
  {
    if id in ctx then Success(ctx[id]) else Failure(Caused(UnknownNode(id, None), cause))
  }

  /** `Node::require_type_mut` and the other `require_*_mut` of a node: the
    * component's cause, or an error naming the components found. */
  function RequireOnNode<C>(n: Node<C>, k: Kind, cause: Option<C>): (r: Result<Option<C>, Caused<C>>)
    ensures r.Success? <==> k in n.components
    ensures r.Success? ==> r.value == n.components[k]
    ensures r.Failure? ==> r.error == Caused(InvalidNodeType(n.id, k, n.components.Keys), cause)
  {
    if k in n.components then Success(n.components[k])
    else Failure(Caused(InvalidNodeType(n.id, k, n.components.Keys), cause))
  }

  /** `Context::require_type_mut`, `require_property_mut`,
    * `require_layout_mut` and `require_layout_field_mut`: an unknown node
    * error names the component expected; a known node without the
    * component gives an invalid node type error. */
  function Require<C>(ctx: Context<C>, id: Id, k: Kind, cause: Option<C>): (r: Result<Option<C>, Caused<C>>)
    ensures r.Success? <==> id in ctx && k in ctx[id].components
    ensures id !in ctx ==> r == Failure(Caused(UnknownNode(id, Some(k)), cause))
    ensures id in ctx && k !in ctx[id].components ==>
      r.Failure? && r.error.error.InvalidNodeType? && k !in r.error.error.found
  {
    if id in ctx then RequireOnNode(ctx[id], k, cause)
    else Failure(Caused(UnknownNode(id, Some(k)), cause))
  }

  /** `Context::require_property_or_layout_field_mut`: the property and
    * layout field components, when the node has at least one of them. */
  function RequirePropertyOrLayoutField<C>(ctx: Context<C>, id: Id, cause: Option<C>): (r: Result<(Option<Option<C>>, Option<Option<C>>), Caused<C>>)
    ensures r.Success? <==> id in ctx && (PropertyKind in ctx[id].components || LayoutFieldKind in ctx[id].components)
    ensures id !in ctx ==> r == Failure(Caused(UnknownNode(id, Some(PropertyKind)), cause))
    ensures r.Success? ==> (r.value.0.Some? <==> PropertyKind in ctx[id].components)
    ensures r.Success? ==> (r.value.1.Some? <==> LayoutFieldKind in ctx[id].components)
  {
    if id in ctx then
      var n := ctx[id];
      var p := if PropertyKind in n.components then Some(n.components[PropertyKind]) else None;
      var f := if LayoutFieldKind in n.components then Some(n.components[LayoutFieldKind]) else None;
      if p.Some? || f.Some? then Success((p, f))
      else Failure(Caused(InvalidNodeType(id, PropertyKind, n.components.Keys), cause))
    else Failure(Caused(UnknownNode(id, Some(PropertyKind)), cause))
  }

  /** `ListMut`: the empty list, or a list cell node. */
  datatype ListRef = NilList | ConsList(id: Id)

  /** `Context::require_list_mut`: `rdf:nil` is the empty list without
    * looking at the nodes; another identifier must be a known list node. */
  function RequireList<C>(ctx: Context<C>, id: Id, cause: Option<C>): (r: Result<ListRef, Caused<C>>)
    ensures id == NilId ==> r == Success(NilList)
    ensures id != NilId ==> (r.Success? <==> id in ctx && ListKind in ctx[id].components)
    ensures r.Success? && id != NilId ==> r.value == ConsList(id)
    ensures id != NilId && id !in ctx ==> r == Failure(Caused(UnknownNode(id, Some(ListKind)), cause))
  {
    if id == NilId then Success(NilList)
    else if id in ctx then
      match RequireOnNode(ctx[id], ListKind, cause)
      case Success(_) => Success(ConsList(id))
      case Failure(e) => Failure(e)
    else Failure(Caused(UnknownNode(id, Some(ListKind)), cause))
  }

  /** `Context::insert`: the node replaces any node with its identifier,
    * which is returned. */
  function Insert<C>(ctx: Context<C>, n: Node<C>): (r: (Context<C>, Option<Node<C>>))
    ensures r.0.Keys == ctx.Keys + {n.id} && r.0[n.id] == n
    ensures r.1.Some? <==> n.id in ctx
    ensures r.1.Some? ==> r.1.value == ctx[n.id]
    ensures forall other :: other in ctx && other != n.id ==> r.0[other] == ctx[other]
    ensures WellKeyed(ctx) ==> WellKeyed(r.0)
  {
    (ctx[n.id := n], if n.id in ctx then Some(ctx[n.id]) else None)
  }

  /** A declared component is then found, with the first declaration's
    * cause when it was new; the requirement of every other component is
    * unaffected. */
  lemma RequireAfterDeclare<C>(ctx: Context<C>, id: Id, k: Kind, cause: Option<C>, j: Kind, later: Option<C>)
    ensures Require(Declare(ctx, id, k, cause), id, k, later).Success?
    ensures (id !in ctx || k !in ctx[id].components) ==> Require(Declare(ctx, id, k, cause), id, k, later) == Success(cause)
    ensures j != k && id in ctx ==> Require(Declare(ctx, id, k, cause), id, j, later).Success? == Require(ctx, id, j, later).Success?
  {
  }

  /** A list declared is then required successfully, as a cell unless it is
    * `rdf:nil`. */
  lemma RequireListAfterDeclareList<C>(ctx: Context<C>, id: Id, cause: Option<C>, later: Option<C>)
    ensures RequireList(DeclareList(ctx, id, cause), id, later).Success?
    ensures RequireList(DeclareList(ctx, id, cause), id, later).value == (if id == NilId then NilList else ConsList(id))
  {
  }
}
