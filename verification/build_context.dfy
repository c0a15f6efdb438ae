/**
 * The build context of the build crate (`build/src/context.rs`): nodes by
 * identifier, each with its metadata, its types, labels and comments, the
 * classes it is declared a subclass of, and, for list nodes, a first/rest
 * cell.  Vocabulary terms the context consults are fixed identifiers.
 */
module BuildContext {
  import opened Wrappers
  import opened Ids

  /** `rdfs:Resource`, the class every other class is a subclass of. */
  const ResourceClass: Id := Iri(0)
  /** `rdfs:Literal`, the class every datatype is a subclass of. */
  const LiteralClass: Id := Iri(1)
  /** `rdf:nil`, the empty list. */
  const Nil: Id := Iri(2)
  /** `rdf:List`, the type of list cells. */
  const ListType: Id := Iri(3)

  /** A list cell: the item and the rest of the list. */
  datatype Cell = Cell(first: Id, rest: Id)

  datatype Definition<M> = Definition(
    id: Id,
    metadata: M,
    types: set<Id>,
    labels: set<string>,
    comments: set<string>,
    subClassOf: seq<Id>,
    list: Option<Cell>)

  type Context<M> = map<Id, Definition<M>>

  /** A new node: no types, labels, comments, super classes or cell. */
  function NewDefinition<M>(id: Id, meta: M): (d: Definition<M>)
    ensures d.id == id && d.metadata == meta
    ensures d.types == {} && d.labels == {} && d.comments == {} && |d.subClassOf| == 0 && d.list.None?
  {
    Definition(id, meta, {}, {}, {}, [], None)
  }

  /** `declare`: an existing node merges the new metadata into its own; an
    * unknown identifier gets a new node. */
  function Declare<M>(ctx: Context<M>, id: Id, meta: M, merge: (M, M) -> M): (r: Context<M>)
    ensures r.Keys == ctx.Keys + {id}
    ensures id in ctx ==> r[id] == ctx[id].(metadata := merge(ctx[id].metadata, meta))
    ensures id !in ctx ==> r[id] == NewDefinition(id, meta)
    ensures forall k :: k in ctx && k != id ==> r[k] == ctx[k]
  {
    if id in ctx then ctx[id := ctx[id].(metadata := merge(ctx[id].metadata, meta))]
    else ctx[id := NewDefinition(id, meta)]
  }

  /** `insert`: the node replaces any node with its identifier, which is
    * returned. */
  function Insert<M>(ctx: Context<M>, d: Definition<M>): (r: (Context<M>, Option<Definition<M>>))
    ensures r.0.Keys == ctx.Keys + {d.id} && r.0[d.id] == d
    ensures forall k :: k in ctx && k != d.id ==> r.0[k] == ctx[k]
    ensures r.1 == (if d.id in ctx then Some(ctx[d.id]) else None)
  {
    (ctx[d.id := d], if d.id in ctx then Some(ctx[d.id]) else None)
  }

  /** Putting the old node back undoes an insertion. */
  lemma InsertUndo<M>(ctx: Context<M>, d: Definition<M>)
    requires d.id in ctx && ctx[d.id].id == d.id
    ensures Insert(ctx, d).1.Some?
    ensures Insert(Insert(ctx, d).0, Insert(ctx, d).1.value).0 == ctx
  {
    var back := Insert(Insert(ctx, d).0, ctx[d.id]).0;
    assert back == ctx;
  }

  /** A list reference: the empty list, or a cell node. */
  datatype ListRef = EmptyList | ConsList(id: Id)

  /** `get_list`: `rdf:nil` is the empty list, a known node a cell, and an
    * unknown node nothing. */
  function GetList<M>(ctx: Context<M>, id: Id): (r: Option<ListRef>)
    ensures id == Nil ==> r == Some(EmptyList)
    ensures id != Nil ==> (r.Some? <==> id in ctx) && (r.Some? ==> r.value == ConsList(id))
  {
    if id == Nil then Some(EmptyList)
    else if id in ctx then Some(ConsList(id))
    else None
  }

  // Subclass search.

  /** Whether a class, a node of the context, directly satisfies being a
    * subclass of `a`: every class but `rdfs:Resource` is a resource, every
    * datatype a literal, and every class is a subclass of the classes it
    * lists. */
  predicate Direct<M>(ctx: Context<M>, isDatatype: Id -> bool, a: Id, b: Id)
    requires b in ctx
  {
    (a == ResourceClass && b != ResourceClass)
    || (a == LiteralClass && isDatatype(b))
    || a in ctx[b].subClassOf
  }

  /** `is_subclass_of_with`: whether `b` is a subclass of `a`, searching
    * depth first through the listed super classes and skipping the
    * classes already visited; the visited set is shared by the whole
    * search. */
  function SubclassWith<M>(ctx: Context<M>, isDatatype: Id -> bool, visited: set<Id>, a: Id, b: Id): (r: (bool, set<Id>))
    ensures visited <= r.1
    decreases |ctx.Keys - visited|, 0, 0
  {
    if b in visited then (false, visited)
    else if b !in ctx then (false, visited + {b})
    else
      var v := visited + {b};
      assert |ctx.Keys - v| < |ctx.Keys - visited| by { Shrinks(ctx.Keys, visited, b); }
      if Direct(ctx, isDatatype, a, b) then (true, v)
      else SupersFrom(ctx, isDatatype, v, a, ctx[b].subClassOf, 0)
  }

  function SupersFrom<M>(ctx: Context<M>, isDatatype: Id -> bool, visited: set<Id>, a: Id, supers: seq<Id>, i: nat): (r: (bool, set<Id>))
    requires i <= |supers|
    ensures visited <= r.1
    decreases |ctx.Keys - visited|, 1, |supers| - i
  {
    if i == |supers| then (false, visited)
    else
      var step := SubclassWith(ctx, isDatatype, visited, a, supers[i]);
      if step.0 then step
      else
        assert |ctx.Keys - step.1| <= |ctx.Keys - visited| by { Grows(ctx.Keys, visited, step.1); }
        SupersFrom(ctx, isDatatype, step.1, a, supers, i + 1)
  }

  lemma Shrinks(keys: set<Id>, visited: set<Id>, b: Id)
    requires b in keys && b !in visited
    ensures |keys - (visited + {b})| < |keys - visited|
  {
    assert keys - visited == (keys - (visited + {b})) + {b};
  }

  lemma Grows(keys: set<Id>, visited: set<Id>, more: set<Id>)
    requires visited <= more
    ensures |keys - more| <= |keys - visited|
  {
    assert keys - visited == (keys - more) + ((keys - visited) - (keys - more));
  }

  /** `is_subclass_of`: whether `b` is a subclass of `a`. */
  function IsSubclassOf<M>(ctx: Context<M>, isDatatype: Id -> bool, a: Id, b: Id): bool {
    SubclassWith(ctx, isDatatype, {}, a, b).0
  }

  /** A chain of context classes, each listing the next as a super class. */
  predicate IsChain<M>(ctx: Context<M>, p: seq<Id>) {
    |p| > 0
    && (forall i :: 0 <= i < |p| ==> p[i] in ctx)
    && forall i :: 0 <= i < |p| - 1 ==> p[i + 1] in ctx[p[i]].subClassOf
  }

  /** The search only answers yes for a chain of listed super classes from
    * `b` to a class that directly satisfies `a`. */
  lemma {:induction false} SubclassWithSound<M>(ctx: Context<M>, isDatatype: Id -> bool, visited: set<Id>, a: Id, b: Id)
    returns (p: seq<Id>)
    requires SubclassWith(ctx, isDatatype, visited, a, b).0
    ensures IsChain(ctx, p) && p[0] == b && Direct(ctx, isDatatype, a, p[|p| - 1])
    decreases |ctx.Keys - visited|, 0, 0
  {
    var v := visited + {b};
    Shrinks(ctx.Keys, visited, b);
    if Direct(ctx, isDatatype, a, b) {
      p := [b];
    } else {
      var j, q := SupersFromSound(ctx, isDatatype, v, a, ctx[b].subClassOf, 0);
      p := [b] + q;
      forall i | 0 <= i < |p| - 1 ensures p[i + 1] in ctx[p[i]].subClassOf {
        if i > 0 { assert p[i] == q[i - 1] && p[i + 1] == q[i]; }
      }
    }
  }

  lemma {:induction false} SupersFromSound<M>(ctx: Context<M>, isDatatype: Id -> bool, visited: set<Id>, a: Id, supers: seq<Id>, i: nat)
    returns (j: nat, p: seq<Id>)
    requires i <= |supers|
    requires SupersFrom(ctx, isDatatype, visited, a, supers, i).0
    ensures i <= j < |supers| && IsChain(ctx, p) && p[0] == supers[j] && Direct(ctx, isDatatype, a, p[|p| - 1])
    decreases |ctx.Keys - visited|, 1, |supers| - i
  {
    assert i < |supers|;
    var step := SubclassWith(ctx, isDatatype, visited, a, supers[i]);
    if step.0 {
      j := i;
      p := SubclassWithSound(ctx, isDatatype, visited, a, supers[i]);
    } else {
      assert SupersFrom(ctx, isDatatype, step.1, a, supers, i + 1).0;
      Grows(ctx.Keys, visited, step.1);
      j, p := SupersFromSound(ctx, isDatatype, step.1, a, supers, i + 1);
    }
  }

  /** `b` is a subclass of `a` only through a chain of listed super classes
    * ending at a class that is a direct subclass of `a` (or a resource, or
    * a datatype under `rdfs:Literal`). */
  lemma IsSubclassOfSound<M>(ctx: Context<M>, isDatatype: Id -> bool, a: Id, b: Id)
    requires IsSubclassOf(ctx, isDatatype, a, b)
    ensures exists p :: IsChain(ctx, p) && p[0] == b && Direct(ctx, isDatatype, a, p[|p| - 1])
  {
    var p := SubclassWithSound(ctx, isDatatype, {}, a, b);
  }

  /** Every class of the context other than `rdfs:Resource` is a subclass
    * of it, and every class is a subclass of each class it lists. */
  lemma DirectSubclasses<M>(ctx: Context<M>, isDatatype: Id -> bool, a: Id, b: Id)
    requires b in ctx
    ensures b != ResourceClass ==> IsSubclassOf(ctx, isDatatype, ResourceClass, b)
    ensures a in ctx[b].subClassOf ==> IsSubclassOf(ctx, isDatatype, a, b)
    ensures isDatatype(b) ==> IsSubclassOf(ctx, isDatatype, LiteralClass, b)
  {
  }

  /** An identifier that is no node of the context is a subclass of
    * nothing. */
  lemma UnknownIsNoSubclass<M>(ctx: Context<M>, isDatatype: Id -> bool, a: Id, b: Id)
    requires b !in ctx
    ensures !IsSubclassOf(ctx, isDatatype, a, b)
  {
  }

  /** `is_subclass_of_or_eq`. */
  predicate IsSubclassOfOrEq<M>(ctx: Context<M>, isDatatype: Id -> bool, a: Id, b: Id) {
    a == b || IsSubclassOf(ctx, isDatatype, a, b)
  }

  /** `subclass_partial_cmp`: equal classes, then `b` under `a`, then `a`
    * under `b`, else unrelated. */
  function SubclassPartialCmp<M>(ctx: Context<M>, isDatatype: Id -> bool, a: Id, b: Id): Option<Ordering> {
    if a == b then Some(Equal)
    else if IsSubclassOf(ctx, isDatatype, a, b) then Some(Greater)
    else if IsSubclassOf(ctx, isDatatype, b, a) then Some(Less)
    else None
  }

  /** The comparison agrees with the subclass relation: it is equal exactly
    * for equal classes, it is absent exactly for distinct unrelated
    * classes, and a class compares equal to itself under
    * `is_subclass_of_or_eq`. */
  lemma SubclassPartialCmpMeaning<M>(ctx: Context<M>, isDatatype: Id -> bool, a: Id, b: Id)
    ensures SubclassPartialCmp(ctx, isDatatype, a, b) == Some(Equal) <==> a == b
    ensures SubclassPartialCmp(ctx, isDatatype, a, b) == Some(Greater) ==> IsSubclassOf(ctx, isDatatype, a, b)
    ensures SubclassPartialCmp(ctx, isDatatype, a, b) == Some(Less) ==> IsSubclassOf(ctx, isDatatype, b, a)
    ensures SubclassPartialCmp(ctx, isDatatype, a, b).None? <==>
      !IsSubclassOfOrEq(ctx, isDatatype, a, b) && !IsSubclassOfOrEq(ctx, isDatatype, b, a)
    ensures IsSubclassOfOrEq(ctx, isDatatype, a, a)
  {
  }

  // Lists.

  /** The node created for one list cell. */
  function CellNode<M>(id: Id, first: Id, rest: Id, meta: M): Definition<M> {
    Definition(id, meta, {ListType}, {}, {}, [], Some(Cell(first, rest)))
  }

  /** Creates the cells of `items` from the last to the first, taking
    * their identifiers from `ids` in order, and returns the head. */
  function BuildCells<M>(ctx: Context<M>, items: seq<Id>, ids: seq<Id>, head: Id, meta: M): (r: (Context<M>, Id))
    requires |ids| == |items|
    ensures r.0.Keys == ctx.Keys + set x | x in ids
    decreases |items|
  {
    if |items| == 0 then (ctx, head)
    else
      var id := ids[0];
      var next := ctx[id := CellNode(id, items[|items| - 1], head, meta)];
      assert ids == [id] + ids[1..];
      BuildCells(next, items[..|items| - 1], ids[1..], id, meta)
  }

  /** Building cells with fresh identifiers leaves every node of the
    * context as it was. */
  lemma {:induction false} BuildCellsKeeps<M>(ctx: Context<M>, items: seq<Id>, ids: seq<Id>, head: Id, meta: M)
    requires |ids| == |items| && Fresh(ctx, ids)
    ensures forall k :: k in ctx ==> BuildCells(ctx, items, ids, head, meta).0[k] == ctx[k]
    decreases |items|
  {
    if |items| > 0 {
      var id := ids[0];
      var next := ctx[id := CellNode(id, items[|items| - 1], head, meta)];
      FreshTail(ctx, next, ids);
      BuildCellsKeeps(next, items[..|items| - 1], ids[1..], id, meta);
    }
  }

  lemma FreshTail<M>(ctx: Context<M>, next: Context<M>, ids: seq<Id>)
    requires |ids| > 0 && Fresh(ctx, ids) && next.Keys == ctx.Keys + {ids[0]}
    ensures Fresh(next, ids[1..])
  {
    forall i | 0 <= i < |ids[1..]| ensures ids[1..][i] !in next {
      assert ids[1..][i] == ids[i + 1] && ids[i + 1] != ids[0];
    }
  }

  /** `create_list`: `rdf:nil` for no items, otherwise the first cell of a
    * chain of new cells, one per item; the generator's identifiers are
    * given in the order it produces them. */
  function CreateList<M>(ctx: Context<M>, items: seq<Id>, ids: seq<Id>, meta: M): (r: (Context<M>, Id))
    requires |ids| == |items|
  {
    BuildCells(ctx, items, ids, Nil, meta)
  }

  /** The items of the list starting at `head`, following at most `n`
    * cells. */
  function Items<M>(ctx: Context<M>, head: Id, n: nat): Option<seq<Id>>
    decreases n
  {
    if head == Nil then Some([])
    else if n == 0 || head !in ctx || ctx[head].list.None? then None
    else
      var rest :- Items(ctx, ctx[head].list.value.rest, n - 1);
      Some([ctx[head].list.value.first] + rest)
  }

  /** Fresh identifiers: distinct, unknown to the context, and not
    * `rdf:nil`. */
  predicate Fresh<M>(ctx: Context<M>, ids: seq<Id>) {
    (forall i, j :: 0 <= i < j < |ids| ==> ids[i] != ids[j])
    && forall i :: 0 <= i < |ids| ==> ids[i] !in ctx && ids[i] != Nil
  }

  /** Cells are only added: a list of the context reads the same after. */
  lemma {:induction false} ItemsStable<M>(ctx: Context<M>, big: Context<M>, head: Id, n: nat)
    requires forall k :: k in ctx ==> k in big && big[k] == ctx[k]
    requires Items(ctx, head, n).Some?
    ensures Items(big, head, n) == Items(ctx, head, n)
    decreases n
  {
    if head != Nil {
      ItemsStable(ctx, big, ctx[head].list.value.rest, n - 1);
    }
  }

  /** One cell: the last item goes first onto `head`, and the rest is built
    * from the new cell. */
  lemma BuildCellsStep<M>(ctx: Context<M>, items: seq<Id>, ids: seq<Id>, head: Id, tail: seq<Id>, meta: M)
    requires |ids| == |items| > 0 && Fresh(ctx, ids)
    requires Items(ctx, head, |tail|) == Some(tail)
    ensures var next := ctx[ids[0] := CellNode(ids[0], items[|items| - 1], head, meta)];
      && Fresh(next, ids[1..])
      && Items(next, ids[0], |tail| + 1) == Some([items[|items| - 1]] + tail)
      && BuildCells(ctx, items, ids, head, meta) == BuildCells(next, items[..|items| - 1], ids[1..], ids[0], meta)
  {
    var id := ids[0];
    var last := items[|items| - 1];
    var next := ctx[id := CellNode(id, last, head, meta)];
    ItemsStable(ctx, next, head, |tail|);
    assert id != Nil && next[id].list == Some(Cell(last, head));
    FreshTail(ctx, next, ids);
  }

  /** Building cells from `head`, whose list reads `tail`, gives a head
    * whose list reads the items followed by `tail`. */
  lemma {:induction false} BuildCellsItems<M>(ctx: Context<M>, items: seq<Id>, ids: seq<Id>, head: Id, tail: seq<Id>, meta: M)
    requires |ids| == |items| && Fresh(ctx, ids)
    requires Items(ctx, head, |tail|) == Some(tail)
    ensures Items(BuildCells(ctx, items, ids, head, meta).0, BuildCells(ctx, items, ids, head, meta).1, |items| + |tail|)
      == Some(items + tail)
    decreases |items|
  {
    if |items| == 0 {
      assert items + tail == tail;
    } else {
      var last := items[|items| - 1];
      var init := items[..|items| - 1];
      var next := ctx[ids[0] := CellNode(ids[0], last, head, meta)];
      BuildCellsStep(ctx, items, ids, head, tail, meta);
      var b := BuildCells(next, init, ids[1..], ids[0], meta);
      assert BuildCells(ctx, items, ids, head, meta) == b;
      BuildCellsItems(next, init, ids[1..], ids[0], [last] + tail, meta);
      SplitLast(items, tail);
    }
  }

  lemma SplitLast<T>(s: seq<T>, t: seq<T>)
    requires |s| > 0
    ensures s[..|s| - 1] + ([s[|s| - 1]] + t) == s + t
    ensures |s[..|s| - 1]| + |[s[|s| - 1]] + t| == |s| + |t|
  {
    assert s == s[..|s| - 1] + [s[|s| - 1]];
  }

  /** A created list reads back as the items, in order; no items give
    * `rdf:nil`. */
  lemma CreateListItems<M>(ctx: Context<M>, items: seq<Id>, ids: seq<Id>, meta: M)
    requires |ids| == |items| && Fresh(ctx, ids)
    ensures |items| == 0 ==> CreateList(ctx, items, ids, meta).1 == Nil
    ensures Items(CreateList(ctx, items, ids, meta).0, CreateList(ctx, items, ids, meta).1, |items|) == Some(items)
  {
    BuildCellsItems(ctx, items, ids, Nil, [], meta);
    assert items + [] == items;
  }

  // Identifier remapping.

  /** `map_ids` on a map from identifiers: every key is renamed, and the
    * metadata of keys renamed to the same identifier are merged, in the
    * order `keys` lists them. */
  function MapIds<M>(m: map<Id, M>, keys: seq<Id>, f: Id -> Id, merge: (M, M) -> M): (r: map<Id, M>)
    requires forall i :: 0 <= i < |keys| ==> keys[i] in m
    ensures r.Keys == set k | k in keys :: f(k)
    decreases |keys|
  {
    if |keys| == 0 then map[]
    else
      var k := keys[|keys| - 1];
      var prev := MapIds(m, keys[..|keys| - 1], f, merge);
      assert keys == keys[..|keys| - 1] + [k];
      if f(k) in prev then prev[f(k) := merge(prev[f(k)], m[k])] else prev[f(k) := m[k]]
  }

  /** A key no other listed key is renamed onto keeps its metadata under
    * its new name. */
  lemma {:induction false} MapIdsUnique<M>(m: map<Id, M>, keys: seq<Id>, f: Id -> Id, merge: (M, M) -> M, j: nat)
    requires forall i :: 0 <= i < |keys| ==> keys[i] in m
    requires j < |keys| && forall i :: 0 <= i < |keys| && i != j ==> f(keys[i]) != f(keys[j])
    ensures MapIds(m, keys, f, merge)[f(keys[j])] == m[keys[j]]
    decreases |keys|
  {
    var n := |keys| - 1;
    var init := keys[..n];
    var prev := MapIds(m, init, f, merge);
    var k := keys[n];
    var r := MapIds(m, keys, f, merge);
    assert r == if f(k) in prev then prev[f(k) := merge(prev[f(k)], m[k])] else prev[f(k) := m[k]];
    if j < n {
      assert forall i :: 0 <= i < |init| && i != j ==> f(init[i]) != f(init[j]);
      MapIdsUnique(m, init, f, merge, j);
      assert f(k) != f(keys[j]);
      assert r[f(keys[j])] == prev[f(keys[j])];
    } else {
      assert f(k) !in prev by {
        forall i | 0 <= i < |init| ensures f(init[i]) != f(keys[j]) {
          assert init[i] == keys[i];
        }
      }
      assert r[f(k)] == m[k];
    }
  }

  /** Two keys renamed to the same identifier merge their metadata. */
  lemma MapIdsCollision(a: Id, b: Id, x: Id)
    requires a != b
    ensures var m := map[a := 1, b := 2];
      MapIds(m, [a, b], _ => x, (p: int, q: int) => p + q) == map[x := 3]
  {
    var m := map[a := 1, b := 2];
    var f := (_: Id) => x;
    var merge := (p: int, q: int) => p + q;
    assert [a, b][..1] == [a];
    assert [a][..0] == [];
    assert MapIds(m, [], f, merge) == map[];
    assert MapIds(m, [a], f, merge) == map[x := 1];
  }
}
