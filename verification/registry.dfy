/**
 * Layout registries of the layouts crate (`layouts/src/lib.rs`): a stored
 * collection of layout definitions keyed by resource, an optional registry,
 * and the union of two registries, in which one takes precedence.
 */
module Registry {
  import opened Wrappers

  /** A registry of layout definitions of type `L`, keyed by resources of
    * type `R`. */
  datatype Registry<R, L> =
    | Layouts(layouts: map<R, L>)
    | Maybe(registry: Option<Registry<R, L>>)
    | Union(fallback: Registry<R, L>, preferred: Registry<R, L>)

  /** The layout collection with nothing in it. */
  function Empty<R(!new), L>(): Registry<R, L> {
    Layouts(map[])
  }

  /** The empty collection holds no layout. */
  lemma EmptyContainsNothing<R(!new), L>()
    ensures forall id :: !Contains(Empty<R, L>(), id)
  {
  }

  /** The definition a registry holds for a layout: a union consults its
    * preferred registry, then its fallback. */
  function Get<R, L>(reg: Registry<R, L>, id: R): Option<L> {
    match reg
    case Layouts(m) => if id in m then Some(m[id]) else None
    case Maybe(None) => None
    case Maybe(Some(r)) => Get(r, id)
    case Union(fallback, preferred) =>
      match Get(preferred, id)
      case Some(l) => Some(l)
      case None => Get(fallback, id)
  }

  /** Whether a registry defines a layout; an optional registry asks the
    * registry it holds, every other registry whether `Get` finds it. */
  predicate Contains<R, L>(reg: Registry<R, L>, id: R) {
    match reg
    case Maybe(None) => false
    case Maybe(Some(r)) => Contains(r, id)
    case _ => Get(reg, id).Some?
  }

  /** The override for optional registries agrees with the default: a
    * registry contains exactly the layouts it can get. */
  lemma {:induction false} ContainsIsGet<R, L>(reg: Registry<R, L>, id: R)
    ensures Contains(reg, id) <==> Get(reg, id).Some?
  {
    match reg
    case Maybe(Some(r)) => ContainsIsGet(r, id);
    case _ =>
  }

  /** An absent registry contains nothing. */
  lemma AbsentContainsNothing<R, L>(id: R)
    ensures !Contains(Registry<R, L>.Maybe(None), id)
    ensures Get(Registry<R, L>.Maybe(None), id).None?
  {
  }

  /** `a.with(b)`: the union that consults `a` first and falls back to
    * `b`. */
  function With<R(!new), L>(a: Registry<R, L>, b: Registry<R, L>): (r: Registry<R, L>)
    ensures forall id :: Get(r, id) == (if Get(a, id).Some? then Get(a, id) else Get(b, id))
  {
    Union(b, a)
  }

  /** The definitions a registry makes visible, as one map. */
  function Visible<R, L>(reg: Registry<R, L>): map<R, L> {
    match reg
    case Layouts(m) => m
    case Maybe(None) => map[]
    case Maybe(Some(r)) => Visible(r)
    case Union(fallback, preferred) => Visible(fallback) + Visible(preferred)
  }

  /** Looking a layout up in a registry is looking it up in the map of its
    * visible definitions, where the preferred side of a union wins. */
  lemma {:induction false} GetIsVisible<R, L>(reg: Registry<R, L>, id: R)
    ensures Get(reg, id) == (if id in Visible(reg) then Some(Visible(reg)[id]) else None)
  {
    match reg
    case Layouts(_) =>
    case Maybe(None) =>
    case Maybe(Some(r)) => GetIsVisible(r, id);
    case Union(fallback, preferred) =>
      GetIsVisible(fallback, id);
      GetIsVisible(preferred, id);
  }

  /** A union's definitions: those of either side. */
  lemma UnionContains<R(!new), L>(a: Registry<R, L>, b: Registry<R, L>, id: R)
    ensures Contains(With(a, b), id) <==> Contains(a, id) || Contains(b, id)
  {
    ContainsIsGet(a, id);
    ContainsIsGet(b, id);
  }

  /** Defines a layout, built from the reference to it, in a collection:
    * returns the new collection, the reference and the previous
    * definition. */
  function InsertWith<R, L>(m: map<R, L>, id: R, builder: R -> L): (r: (map<R, L>, R, Option<L>))
    ensures r.1 == id && r.0.Keys == m.Keys + {id} && r.0[id] == builder(id)
    ensures forall k :: k in m && k != id ==> k in r.0 && r.0[k] == m[k]
    ensures r.2 == Get(Layouts(m), id)
  {
    (m[id := builder(id)], id, if id in m then Some(m[id]) else None)
  }

  /** Defines a layout in a collection. */
  function Insert<R(!new), L>(m: map<R, L>, id: R, layout: L): (r: (map<R, L>, R, Option<L>))
    ensures Get(Layouts(r.0), id) == Some(layout)
    ensures forall k :: k != id ==> Get(Layouts(r.0), k) == Get(Layouts(m), k)
    ensures r.2 == Get(Layouts(m), id)
  {
    InsertWith(m, id, _ => layout)
  }

  /** Putting the previous definition back restores the collection. */
  lemma InsertUndo<R(!new), L>(m: map<R, L>, id: R, layout: L)
    requires id in m
    ensures Insert(m, id, layout).2.Some?
    ensures Insert(Insert(m, id, layout).0, id, Insert(m, id, layout).2.value).0 == m
  {
  }
}
