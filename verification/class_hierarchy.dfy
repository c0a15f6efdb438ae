/**
 * The minimal class hierarchy of the build crate (`build/src/ty.rs`): the
 * graph of classes and their super classes is checked for cycles, and each
 * class keeps only its direct super classes, those not already implied by
 * another of its super classes.  The same reduction removes the indirect
 * classes from a set of types.
 */
module ClassHierarchy {
  import opened Wrappers
  import opened Ids
  import opened Exploration
  import opened BuildContext

  // Reachability and reduction over a finite graph.

  /** The states reachable from `x` in one step or more. */
  function Above(succ: Id -> set<Id>, u: set<Id>, x: Id): (r: set<Id>)
    requires x in u && MapsInto(succ, u)
    ensures succ(x) <= r <= u
  {
    Reach(succ, u, succ(x))
  }

  /** No state reaches itself. */
  predicate Acyclic(succ: Id -> set<Id>, u: set<Id>)
    requires MapsInto(succ, u)
  {
    forall x :: x in u ==> x !in Above(succ, u, x)
  }

  /** The members of `s` not reachable from any member of `s`. */
  function Reduce(succ: Id -> set<Id>, u: set<Id>, s: set<Id>): (r: set<Id>)
    requires s <= u && MapsInto(succ, u)
  {
    s - set t, x | t in s && x in Above(succ, u, t) :: x
  }

  /** What is reachable from a reachable state is reachable. */
  lemma AboveTransitive(succ: Id -> set<Id>, u: set<Id>, t: Id, y: Id)
    requires t in u && MapsInto(succ, u) && y in Above(succ, u, t)
    ensures Above(succ, u, y) <= Above(succ, u, t)
  {
    ReachLeast(succ, u, succ(y), Above(succ, u, t));
  }

  /** In an acyclic graph a reachable state reaches strictly less. */
  lemma AboveShrinks(succ: Id -> set<Id>, u: set<Id>, t: Id, y: Id)
    requires t in u && MapsInto(succ, u) && Acyclic(succ, u) && y in Above(succ, u, t)
    ensures |u - Above(succ, u, t)| < |u - Above(succ, u, y)|
  {
    AboveTransitive(succ, u, t, y);
    assert y !in Above(succ, u, y);
    var a := Above(succ, u, y);
    var b := Above(succ, u, t);
    assert u - a == (u - b) + (b - a);
    assert (u - b) !! (b - a);
    assert y in b - a;
  }

  /** In an acyclic graph, a state reachable from a member of `s` is
    * reachable from a member that the reduction keeps. */
  lemma {:induction false} ReduceCovers(succ: Id -> set<Id>, u: set<Id>, s: set<Id>, t: Id, x: Id)
    requires s <= u && MapsInto(succ, u) && Acyclic(succ, u)
    requires t in s && x in Above(succ, u, t)
    ensures exists k :: k in Reduce(succ, u, s) && x in Above(succ, u, k)
    decreases |u - Above(succ, u, t)|
  {
    if t !in Reduce(succ, u, s) {
      var t2 :| t2 in s && t in Above(succ, u, t2);
      AboveTransitive(succ, u, t2, t);
      AboveShrinks(succ, u, t2, t);
      ReduceCovers(succ, u, s, t2, x);
    }
  }

  /** The reduction keeps a subset in which no member reaches another, and
    * drops only members implied by a kept one; a member that no member
    * reaches is kept. */
  lemma ReduceMeaning(succ: Id -> set<Id>, u: set<Id>, s: set<Id>)
    requires s <= u && MapsInto(succ, u)
    ensures Reduce(succ, u, s) <= s
    ensures forall t, x :: t in s && x in Reduce(succ, u, s) ==> x !in Above(succ, u, t)
    ensures forall x :: x in s && (forall t :: t in s ==> x !in Above(succ, u, t)) ==> x in Reduce(succ, u, s)
    ensures Acyclic(succ, u) ==>
      forall x :: x in s ==> x in Reduce(succ, u, s) || exists k :: k in Reduce(succ, u, s) && x in Above(succ, u, k)
  {
    if Acyclic(succ, u) {
      forall x | x in s && x !in Reduce(succ, u, s)
        ensures exists k :: k in Reduce(succ, u, s) && x in Above(succ, u, k)
      {
        var t :| t in s && x in Above(succ, u, t);
        ReduceCovers(succ, u, s, t, x);
      }
    }
  }

  // The class graph of a context.

  /** `super_classes`: the listed super classes, `rdfs:Resource` for every
    * class but itself, and `rdfs:Literal` for datatypes. */
  function SuperIds<M>(ctx: Context<M>, isDatatype: Id -> bool, id: Id): (r: set<Id>)
    requires id in ctx
    ensures forall s :: s in ctx[id].subClassOf ==> s in r
    ensures id != ResourceClass ==> ResourceClass in r
    ensures isDatatype(id) ==> LiteralClass in r
  {
    Elems(ctx[id].subClassOf)
    + (if id != ResourceClass then {ResourceClass} else {})
    + (if isDatatype(id) then {LiteralClass} else {})
  }

  function Succ<M>(ctx: Context<M>, isDatatype: Id -> bool): Id -> set<Id> {
    x => if x in ctx then SuperIds(ctx, isDatatype, x) else {}
  }

  /** Every super class is itself a node of the context, as the graph
    * construction demands. */
  predicate Closed<M>(ctx: Context<M>, isDatatype: Id -> bool) {
    forall id :: id in ctx ==> SuperIds(ctx, isDatatype, id) <= ctx.Keys
  }

  lemma ClosedMapsInto<M>(ctx: Context<M>, isDatatype: Id -> bool)
    requires Closed(ctx, isDatatype)
    ensures MapsInto(Succ(ctx, isDatatype), ctx.Keys)
  {
    forall x | x in ctx.Keys ensures Succ(ctx, isDatatype)(x) <= ctx.Keys {
      assert Succ(ctx, isDatatype)(x) == SuperIds(ctx, isDatatype, x);
    }
  }

  /** The classes above `id` in the context. */
  function ClassesAbove<M>(ctx: Context<M>, isDatatype: Id -> bool, id: Id): set<Id>
    requires Closed(ctx, isDatatype) && id in ctx
  {
    ClosedMapsInto(ctx, isDatatype);
    Above(Succ(ctx, isDatatype), ctx.Keys, id)
  }

  /** A reported cycle: the class, and whether it lists itself. */
  datatype SubClassCycle = SubClassCycle(id: Id, selfLoop: bool)

  /** `ClassHierarchy::new`: the first class, in context order, that lists
    * itself is a cycle; then any larger cycle is one; otherwise each class
    * maps to its direct super classes. */
  function NewHierarchy<M>(ctx: Context<M>, isDatatype: Id -> bool): Result<map<Id, set<Id>>, SubClassCycle>
    requires Closed(ctx, isDatatype)
  {
    ClosedMapsInto(ctx, isDatatype);
    var succ := Succ(ctx, isDatatype);
    var loops := set id | id in ctx && id in SuperIds(ctx, isDatatype, id);
    if loops != {} then Failure(SubClassCycle(Least(loops), true))
    else
      var cycles := set id | id in ctx && id in ClassesAbove(ctx, isDatatype, id);
      if cycles != {} then Failure(SubClassCycle(Least(cycles), false))
      else Success(map id | id in ctx :: Reduce(succ, ctx.Keys, SuperIds(ctx, isDatatype, id)))
  }

  /** Building the hierarchy fails exactly when some class is above
    * itself, and the class it reports is one. */
  lemma NewHierarchyFailure<M>(ctx: Context<M>, isDatatype: Id -> bool)
    requires Closed(ctx, isDatatype)
    ensures NewHierarchy(ctx, isDatatype).Failure? <==>
      exists id :: id in ctx && id in ClassesAbove(ctx, isDatatype, id)
    ensures NewHierarchy(ctx, isDatatype).Failure? ==>
      var e := NewHierarchy(ctx, isDatatype).error;
      e.id in ctx && e.id in ClassesAbove(ctx, isDatatype, e.id)
  {
    var loops := set id | id in ctx && id in SuperIds(ctx, isDatatype, id);
    if loops != {} {
      var l := Least(loops);
      assert l in ClassesAbove(ctx, isDatatype, l);
    }
  }

  /** A class listing itself is reported first, as a cycle of length one,
    * and it is the first such class in context order. */
  lemma NewHierarchySelfLoop<M>(ctx: Context<M>, isDatatype: Id -> bool)
    requires Closed(ctx, isDatatype)
    ensures NewHierarchy(ctx, isDatatype).Failure? && NewHierarchy(ctx, isDatatype).error.selfLoop <==>
      exists id :: id in ctx && id in SuperIds(ctx, isDatatype, id)
    ensures NewHierarchy(ctx, isDatatype).Failure? && NewHierarchy(ctx, isDatatype).error.selfLoop ==>
      var e := NewHierarchy(ctx, isDatatype).error;
      e.id in ctx && e.id in SuperIds(ctx, isDatatype, e.id)
      && forall id :: id in ctx && id in SuperIds(ctx, isDatatype, id) ==> IdLe(e.id, id)
  {
    var loops := set id | id in ctx && id in SuperIds(ctx, isDatatype, id);
    if loops != {} {
      assert NewHierarchy(ctx, isDatatype) == Failure(SubClassCycle(Least(loops), true));
    } else {
      assert forall id :: id in ctx ==> id !in SuperIds(ctx, isDatatype, id) by {
        forall id | id in ctx ensures id !in SuperIds(ctx, isDatatype, id) {
          assert id !in loops;
        }
      }
      assert NewHierarchy(ctx, isDatatype).Success? || !NewHierarchy(ctx, isDatatype).error.selfLoop;
    }
  }

  /** On success every class of the context has an entry, no class is above
    * itself, each class keeps a subset of its super classes none of which
    * is above another, and every dropped super class is above a kept one. */
  lemma NewHierarchySuccess<M>(ctx: Context<M>, isDatatype: Id -> bool, h: map<Id, set<Id>>, id: Id)
    requires Closed(ctx, isDatatype) && NewHierarchy(ctx, isDatatype) == Success(h) && id in ctx
    ensures h.Keys == ctx.Keys
    ensures id !in ClassesAbove(ctx, isDatatype, id)
    ensures h[id] <= SuperIds(ctx, isDatatype, id)
    ensures forall t, x :: t in SuperIds(ctx, isDatatype, id) && x in h[id] ==> x !in ClassesAbove(ctx, isDatatype, t)
    ensures forall x :: x in SuperIds(ctx, isDatatype, id) ==>
      x in h[id] || exists k :: k in h[id] && x in ClassesAbove(ctx, isDatatype, k)
  {
    SuccessIsAcyclic(ctx, isDatatype);
    assert h[id] == Reduce(Succ(ctx, isDatatype), ctx.Keys, SuperIds(ctx, isDatatype, id));
    ReducedSupers(ctx, isDatatype, id, h[id]);
  }

  /** In an acyclic context, the reduced super classes of a class are the
    * ones no other super class is below, and cover all of them. */
  lemma ReducedSupers<M>(ctx: Context<M>, isDatatype: Id -> bool, id: Id, r: set<Id>)
    requires Closed(ctx, isDatatype) && id in ctx
    requires MapsInto(Succ(ctx, isDatatype), ctx.Keys) && Acyclic(Succ(ctx, isDatatype), ctx.Keys)
    requires r == Reduce(Succ(ctx, isDatatype), ctx.Keys, SuperIds(ctx, isDatatype, id))
    ensures id !in ClassesAbove(ctx, isDatatype, id)
    ensures r <= SuperIds(ctx, isDatatype, id)
    ensures forall t, x :: t in SuperIds(ctx, isDatatype, id) && x in r ==> x !in ClassesAbove(ctx, isDatatype, t)
    ensures forall x :: x in SuperIds(ctx, isDatatype, id) ==>
      x in r || exists k :: k in r && x in ClassesAbove(ctx, isDatatype, k)
  {
    var succ := Succ(ctx, isDatatype);
    var s := SuperIds(ctx, isDatatype, id);
    ReduceMeaning(succ, ctx.Keys, s);
  }

  /** A successful build has one reduced entry per class, and its class
    * graph is acyclic. */
  lemma SuccessIsAcyclic<M>(ctx: Context<M>, isDatatype: Id -> bool)
    requires Closed(ctx, isDatatype) && NewHierarchy(ctx, isDatatype).Success?
    ensures MapsInto(Succ(ctx, isDatatype), ctx.Keys)
    ensures Acyclic(Succ(ctx, isDatatype), ctx.Keys)
    ensures NewHierarchy(ctx, isDatatype).value
      == map id | id in ctx :: Reduce(Succ(ctx, isDatatype), ctx.Keys, SuperIds(ctx, isDatatype, id))
  {
    ClosedMapsInto(ctx, isDatatype);
    var cycles := set id | id in ctx && id in ClassesAbove(ctx, isDatatype, id);
    assert cycles == {};
    forall x | x in ctx.Keys ensures x !in Above(Succ(ctx, isDatatype), ctx.Keys, x) {
      assert x !in cycles;
    }
  }

  // Removing indirect classes.

  function HierarchySucc(h: map<Id, set<Id>>): Id -> set<Id> {
    x => if x in h then h[x] else {}
  }

  predicate HierarchyClosed(h: map<Id, set<Id>>) {
    forall id :: id in h ==> h[id] <= h.Keys
  }

  /** `remove_indirect_classes`: removes from the types every class above
    * one of them in the hierarchy. */
  function RemoveIndirectClasses(h: map<Id, set<Id>>, types: set<Id>): (r: set<Id>)
    requires HierarchyClosed(h) && types <= h.Keys
  {
    assert MapsInto(HierarchySucc(h), h.Keys) by {
      forall x | x in h.Keys ensures HierarchySucc(h)(x) <= h.Keys {
        assert HierarchySucc(h)(x) == h[x];
      }
    }
    Reduce(HierarchySucc(h), h.Keys, types)
  }

  /** The hierarchy built from a context has an entry for every class, and
    * each entry is a subset of the class's super classes. */
  lemma HierarchyShape<M>(ctx: Context<M>, isDatatype: Id -> bool)
    requires Closed(ctx, isDatatype) && NewHierarchy(ctx, isDatatype).Success?
    ensures var h := NewHierarchy(ctx, isDatatype).value;
      HierarchyClosed(h) && h.Keys == ctx.Keys
      && forall x :: x in h ==> h[x] <= SuperIds(ctx, isDatatype, x)
  {
    var h := NewHierarchy(ctx, isDatatype).value;
    forall x | x in h ensures h[x] <= h.Keys && h[x] <= SuperIds(ctx, isDatatype, x) {
      NewHierarchySuccess(ctx, isDatatype, NewHierarchy(ctx, isDatatype).value, x);
    }
  }

  /** A class is above another in the hierarchy only if it is above it in
    * the context. */
  lemma HierarchyAbove<M>(ctx: Context<M>, isDatatype: Id -> bool, id: Id)
    requires Closed(ctx, isDatatype) && NewHierarchy(ctx, isDatatype).Success? && id in ctx
    ensures MapsInto(HierarchySucc(NewHierarchy(ctx, isDatatype).value), ctx.Keys)
    ensures Above(HierarchySucc(NewHierarchy(ctx, isDatatype).value), ctx.Keys, id) <= ClassesAbove(ctx, isDatatype, id)
  {
    ClosedMapsInto(ctx, isDatatype);
    HierarchyShape(ctx, isDatatype);
    var h := NewHierarchy(ctx, isDatatype).value;
    var hs := HierarchySucc(h);
    var succ := Succ(ctx, isDatatype);
    assert MapsInto(hs, ctx.Keys) by {
      forall x | x in ctx.Keys ensures hs(x) <= ctx.Keys {
        assert hs(x) == h[x];
      }
    }
    var up := ClassesAbove(ctx, isDatatype, id);
    assert ClosedUnder(hs, up) by {
      forall y | y in up ensures hs(y) <= up {
        assert ClosedUnder(succ, up);
        assert succ(y) <= up;
        assert hs(y) == h[y] && succ(y) == SuperIds(ctx, isDatatype, y);
      }
    }
    assert hs(id) <= up by {
      assert hs(id) == h[id] && succ(id) == SuperIds(ctx, isDatatype, id);
    }
    ReachLeast(hs, ctx.Keys, hs(id), up);
  }

  /** With a hierarchy built from the context, removing the indirect
    * classes keeps types none of which is above another listed type, and
    * every removed type is above a kept one. */
  lemma RemoveIndirectClassesMeaning<M>(ctx: Context<M>, isDatatype: Id -> bool, types: set<Id>)
    requires Closed(ctx, isDatatype) && NewHierarchy(ctx, isDatatype).Success? && types <= ctx.Keys
    ensures HierarchyClosed(NewHierarchy(ctx, isDatatype).value)
    ensures var h := NewHierarchy(ctx, isDatatype).value;
      var r := RemoveIndirectClasses(h, types);
      MapsInto(HierarchySucc(h), h.Keys)
      && r <= types
      && (forall t, x :: t in types && x in r ==> x !in Above(HierarchySucc(h), h.Keys, t))
      && forall x :: x in types ==> x in r || exists k :: k in r && x in Above(HierarchySucc(h), h.Keys, k)
  {
    HierarchyShape(ctx, isDatatype);
    var h := NewHierarchy(ctx, isDatatype).value;
    var hs := HierarchySucc(h);
    assert MapsInto(hs, h.Keys) by {
      forall x | x in h.Keys ensures hs(x) <= h.Keys {
        assert hs(x) == h[x];
      }
    }
    assert Acyclic(hs, h.Keys) by {
      forall x | x in h.Keys ensures x !in Above(hs, h.Keys, x) {
        HierarchyAbove(ctx, isDatatype, x);
        NewHierarchySuccess(ctx, isDatatype, NewHierarchy(ctx, isDatatype).value, x);
      }
    }
    ReduceMeaning(hs, h.Keys, types);
  }
}
