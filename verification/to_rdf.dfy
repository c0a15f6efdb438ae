/**
 * The export of a TreeLDR model to RDF quads (`core/src/to_rdf.rs`): the
 * vocabulary test, RDF lists, and the quads each type, property, layout,
 * field and variant definition emits.  The blank-node generator is a
 * counter: `next` returns the blank node of the current count and
 * increments it.  References to other definitions are given by the
 * identifiers they resolve to.
 */
module ToRdf {
  import opened Wrappers
  import opened CoreVocab
  import Values
  import RegExps

  const NilId: Id := Iri(RdfNil)
  const TrueObject: Object := Node(Iri(SchemaTrue))

  /** `is_standard_vocabulary`: every IRI of the known vocabulary; blank
    * nodes and unknown IRIs are not. */
  predicate IsStandardVocabulary(id: Id) {
    !(id.Blank? || id.term.Unknown?)
  }

  /** Every quad has a subject in the range: `id` itself, or a blank node
    * the generator handed out between `lo` and `hi`. */
  predicate SubjectsWithin(qs: seq<Quad>, id: Id, lo: nat, hi: nat) {
    forall q | q in qs :: q.subject == id || (q.subject.Blank? && lo <= q.subject.blank < hi)
  }

  function OptQuad(id: Id, p: Term, o: Option<Object>): seq<Quad> {
    if o.Some? then [Quad(id, p, o.value)] else []
  }

  function OptNode(id: Option<Id>): Option<Object> {
    if id.Some? then Some(Node(id.value)) else None
  }

  function OptStr(s: Option<string>): Option<Object> {
    if s.Some? then Some(Str(s.value)) else None
  }

  // RDF lists.

  function ListNode(id: Id, item: Object, rest: Id): seq<Quad> {
    [Quad(id, RdfType, Node(Iri(RdfList))), Quad(id, RdfFirst, item), Quad(id, RdfRest, Node(rest))]
  }

  /** `to_rdf_list`: the items are visited last to first, each getting a
    * fresh cell; the head is `rdf:nil` for no item and otherwise the cell
    * of the first item. */
  function ToRdfList(g: nat, items: seq<Object>): (r: (nat, seq<Quad>, Id))
    ensures r.0 == g + |items| && |r.1| == 3 * |items|
    ensures items == [] <==> r.2 == NilId
    ensures items != [] ==> r.2 == Blank(g + |items| - 1)
    ensures forall k :: 0 <= k < |r.1| ==> r.1[k].subject.Blank? && g <= r.1[k].subject.blank < r.0
    decreases |items|
  {
    if items == [] then (g, [], NilId)
    else
      var rest := ToRdfList(g, items[1..]);
      var id := Blank(rest.0);
      (rest.0 + 1, rest.1 + ListNode(id, items[0], rest.2), id)
  }

  /** The object of the first quad with this subject and property. */
  function Lookup(qs: seq<Quad>, s: Id, p: Term): Option<Object>
    decreases |qs|
  {
    if qs == [] then None
    else if qs[0].subject == s && qs[0].property == p then Some(qs[0].obj)
    else Lookup(qs[1..], s, p)
  }

  /** Reads a list back by following `rdf:first` and `rdf:rest` from its
    * head, for at most `fuel` cells. */
  function ReadList(qs: seq<Quad>, head: Id, fuel: nat): Option<seq<Object>>
    decreases fuel
  {
    if head == NilId then Some([])
    else if fuel == 0 then None
    else
      match (Lookup(qs, head, RdfFirst), Lookup(qs, head, RdfRest))
      case (Some(x), Some(Node(next))) =>
        (match ReadList(qs, next, fuel - 1)
         case Some(xs) => Some([x] + xs)
         case None => None)
      case _ => None
  }

  lemma {:induction false} LookupSkip(a: seq<Quad>, b: seq<Quad>, s: Id, p: Term)
    requires forall i :: 0 <= i < |a| ==> a[i].subject != s
    ensures Lookup(a + b, s, p) == Lookup(b, s, p)
    decreases |a|
  {
    if a != [] {
      assert (a + b)[0] == a[0] && a[0].subject != s;
      assert (a + b)[1..] == a[1..] + b;
      assert Lookup(a + b, s, p) == Lookup((a + b)[1..], s, p);
      assert forall i :: 0 <= i < |a[1..]| ==> a[1..][i] == a[i + 1];
      LookupSkip(a[1..], b, s, p);
    } else {
      assert a + b == b;
    }
  }

  lemma ListNodeLookup(id: Id, item: Object, rest: Id, post: seq<Quad>)
    ensures Lookup(ListNode(id, item, rest) + post, id, RdfFirst) == Some(item)
    ensures Lookup(ListNode(id, item, rest) + post, id, RdfRest) == Some(Node(rest))
  {
    var qs := ListNode(id, item, rest) + post;
    assert qs[1..] == [Quad(id, RdfFirst, item), Quad(id, RdfRest, Node(rest))] + post;
    assert qs[1..][1..] == [Quad(id, RdfRest, Node(rest))] + post;
    assert Lookup(qs, id, RdfRest) == Lookup(qs[1..], id, RdfRest) == Lookup(qs[1..][1..], id, RdfRest);
  }

  /** Every blank subject was handed out before `g`. */
  predicate BlanksBelow(qs: seq<Quad>, g: nat) {
    forall i :: 0 <= i < |qs| && qs[i].subject.Blank? ==> qs[i].subject.blank < g
  }

  /** Quads whose blank subjects were handed out from `g` up to `hi`,
    * after quads whose blank subjects come before `g`. */
  lemma BlanksBelowAppend(pre: seq<Quad>, qs: seq<Quad>, g: nat, hi: nat)
    requires BlanksBelow(pre, g) && g <= hi
    requires forall q | q in qs :: q.subject.Blank? && g <= q.subject.blank < hi
    ensures BlanksBelow(pre + qs, hi)
  {
    forall i | 0 <= i < |pre + qs| && (pre + qs)[i].subject.Blank? ensures (pre + qs)[i].subject.blank < hi {
      if i >= |pre| {
        assert (pre + qs)[i] == qs[i - |pre|];
        assert qs[i - |pre|] in qs;
      }
    }
  }

  /** A list of at least one object is its first object's cell after the
    * list of the rest. */
  lemma ToRdfListCons(g: nat, items: seq<Object>, first: Object, rest: seq<Object>)
    requires items != [] && items[0] == first && items[1..] == rest
    ensures var r := ToRdfList(g, rest);
      ToRdfList(g, items) == (r.0 + 1, r.1 + ListNode(Blank(r.0), first, r.2), Blank(r.0))
  {
  }

  /** The list written for some items reads back as those items, whatever
    * quads with other subjects precede or follow it. */
  lemma {:induction false} ToRdfListReads(g: nat, items: seq<Object>, pre: seq<Quad>, post: seq<Quad>)
    requires BlanksBelow(pre, g)
    ensures ReadList(pre + ToRdfList(g, items).1 + post, ToRdfList(g, items).2, |items|) == Some(items)
    decreases |items|
  {
    if items != [] {
      var rest := ToRdfList(g, items[1..]);
      ToRdfListReads(g, items[1..], pre, ListNode(Blank(rest.0), items[0], rest.2) + post);
      ListConsReads(g, items, pre, post);
    }
  }

  /** The list of some items is the cell of the first item in front of the
    * list of the others. */
  lemma ListConsReads(g: nat, items: seq<Object>, pre: seq<Quad>, post: seq<Quad>)
    requires items != [] && BlanksBelow(pre, g)
    requires var rest := ToRdfList(g, items[1..]);
      ReadList(pre + rest.1 + (ListNode(Blank(rest.0), items[0], rest.2) + post), rest.2, |items[1..]|) == Some(items[1..])
    ensures ReadList(pre + ToRdfList(g, items).1 + post, ToRdfList(g, items).2, |items|) == Some(items)
  {
    var rest := ToRdfList(g, items[1..]);
    var node := ListNode(Blank(rest.0), items[0], rest.2);
    ListConsShape(g, items, pre, post, rest, node);
    CellLookups(pre, rest.1, node, post, g, rest.0, items[0], rest.2);
    ListCellReads(pre + rest.1 + (node + post), Blank(rest.0), items, rest.2);
  }

  lemma ListConsShape(g: nat, items: seq<Object>, pre: seq<Quad>, post: seq<Quad>, rest: (nat, seq<Quad>, Id), node: seq<Quad>)
    requires items != [] && rest == ToRdfList(g, items[1..]) && node == ListNode(Blank(rest.0), items[0], rest.2)
    ensures ToRdfList(g, items).2 == Blank(rest.0)
    ensures pre + ToRdfList(g, items).1 + post == pre + rest.1 + (node + post)
  {
    assert ToRdfList(g, items) == (rest.0 + 1, rest.1 + node, Blank(rest.0));
    Regroup(pre, rest.1, node, post);
  }

  lemma Regroup<T>(a: seq<T>, b: seq<T>, c: seq<T>, d: seq<T>)
    ensures a + (b + c) + d == a + b + (c + d)
  {
  }

  /** The cell of the first item leads to the rest of the list. */
  lemma ListCellReads(qs: seq<Quad>, head: Id, items: seq<Object>, next: Id)
    requires items != [] && head.Blank?
    requires Lookup(qs, head, RdfFirst) == Some(items[0]) && Lookup(qs, head, RdfRest) == Some(Node(next))
    requires ReadList(qs, next, |items[1..]|) == Some(items[1..])
    ensures ReadList(qs, head, |items|) == Some(items)
  {
    assert |items[1..]| == |items| - 1;
    assert [items[0]] + items[1..] == items;
  }

  /** The cell handed out at `hi` is found past the quads before it. */
  lemma CellLookups(pre: seq<Quad>, cells: seq<Quad>, node: seq<Quad>, post: seq<Quad>, g: nat, hi: nat, x: Object, next: Id)
    requires BlanksBelow(pre, g) && g <= hi
    requires forall q | q in cells :: q.subject.Blank? && g <= q.subject.blank < hi
    requires node == ListNode(Blank(hi), x, next)
    ensures Lookup(pre + cells + (node + post), Blank(hi), RdfFirst) == Some(x)
    ensures Lookup(pre + cells + (node + post), Blank(hi), RdfRest) == Some(Node(next))
  {
    var front := pre + cells;
    BlanksBelowAppend(pre, cells, g, hi);
    assert forall i :: 0 <= i < |front| ==> front[i].subject != Blank(hi);
    LookupSkip(front, node + post, Blank(hi), RdfFirst);
    LookupSkip(front, node + post, Blank(hi), RdfRest);
    ListNodeLookup(Blank(hi), x, next, post);
  }

  /** The last quad links `id` through `p` to a list holding `items`. */
  predicate PointsTo(qs: seq<Quad>, id: Id, p: Term, items: seq<Object>) {
    && |qs| > 0
    && qs[|qs| - 1].subject == id && qs[|qs| - 1].property == p && qs[|qs| - 1].obj.Node?
    && ReadList(qs, qs[|qs| - 1].obj.id, |items|) == Some(items)
  }

  // Fresh nodes for a sequence of definitions, collected in a list.

  /** The `n` blank nodes the generator hands out from `g`. */
  function FreshNodes(g: nat, n: nat): (os: seq<Object>)
    ensures |os| == n && forall i :: 0 <= i < n ==> os[i] == Node(Blank(g + i))
  {
    seq(n, i requires 0 <= i < n => Node(Blank(g + i)))
  }

  /** An emitter whose quads all have the node they are given as subject. */
  ghost predicate Emits<T(!new)>(emit: (Id, T) -> seq<Quad>) {
    forall id, x, q :: q in emit(id, x) ==> q.subject == id
  }

  /** Each definition in turn gets a fresh node and emits its quads. */
  function EachFresh<T(!new)>(g: nat, xs: seq<T>, emit: (Id, T) -> seq<Quad>): (r: (nat, seq<Quad>, seq<Object>))
    requires Emits(emit)
    ensures r.0 == g + |xs| && |r.2| == |xs|
    ensures forall i :: 0 <= i < |xs| ==> r.2[i] == Node(Blank(g + i))
    ensures forall k :: 0 <= k < |r.1| ==> r.1[k].subject.Blank? && g <= r.1[k].subject.blank < r.0
    decreases |xs|
  {
    if xs == [] then (g, [], [])
    else
      var rest := EachFresh(g + 1, xs[1..], emit);
      (rest.0, emit(Blank(g), xs[0]) + rest.1, [Node(Blank(g))] + rest.2)
  }

  /** The quads of definitions are the first one's, then the rest's. */
  lemma EachFreshCons<T(!new)>(g: nat, xs: seq<T>, emit: (Id, T) -> seq<Quad>)
    requires Emits(emit) && xs != []
    ensures EachFresh(g, xs, emit).1 == emit(Blank(g), xs[0]) + EachFresh(g + 1, xs[1..], emit).1
  {
  }

  /** A quad about the node of the `i`-th definition is among the quads
    * of all of them exactly when that definition emits it. */
  lemma {:induction false} EachFreshOwn<T(!new)>(g: nat, xs: seq<T>, emit: (Id, T) -> seq<Quad>, i: nat, q: Quad)
    requires Emits(emit) && i < |xs| && q.subject == Blank(g + i)
    ensures q in EachFresh(g, xs, emit).1 <==> q in emit(Blank(g + i), xs[i])
    decreases |xs|
  {
    EachFreshCons(g, xs, emit);
    var later := EachFresh(g + 1, xs[1..], emit).1;
    if i == 0 {
      FreshAbove(later, q, g + 1);
    } else {
      EachFreshOwn(g + 1, xs[1..], emit, i - 1, q);
      assert xs[1..][i - 1] == xs[i];
      assert q !in emit(Blank(g), xs[0]);
    }
  }

  /** A quad about a blank node below those of some quads is not among
    * them. */
  lemma FreshAbove(qs: seq<Quad>, q: Quad, lo: nat)
    requires forall k :: 0 <= k < |qs| ==> qs[k].subject.Blank? && lo <= qs[k].subject.blank
    requires q.subject.Blank? && q.subject.blank < lo
    ensures q !in qs
  {
  }

  /** The fresh nodes of the definitions, gathered in a list that `id`
    * points to through `p`. */
  function ListOf<T(!new)>(g: nat, id: Id, p: Term, xs: seq<T>, emit: (Id, T) -> seq<Quad>): (r: (nat, seq<Quad>))
    requires Emits(emit)
    ensures r.0 == g + 2 * |xs|
    ensures SubjectsWithin(r.1, id, g, r.0)
  {
    var each := EachFresh(g, xs, emit);
    var list := ToRdfList(each.0, each.2);
    (list.0, each.1 + list.1 + [Quad(id, p, Node(list.2))])
  }

  /** The list `id` points to holds exactly the fresh nodes, in order. */
  lemma ListOfReads<T(!new)>(pre: seq<Quad>, g: nat, id: Id, p: Term, xs: seq<T>, emit: (Id, T) -> seq<Quad>)
    requires Emits(emit) && BlanksBelow(pre, g)
    ensures PointsTo(pre + ListOf(g, id, p, xs, emit).1, id, p, FreshNodes(g, |xs|))
  {
    var each := EachFresh(g, xs, emit);
    var list := ToRdfList(each.0, each.2);
    var last := [Quad(id, p, Node(list.2))];
    BlanksBelowAppend(pre, each.1, g, each.0);
    ToRdfListReads(each.0, each.2, pre + each.1, last);
    PointsToLast(pre + each.1 + list.1, id, p, list.2, each.2);
    ListOfShape(pre, g, id, p, xs, emit);
    FreshNodesOf(g, xs, emit);
  }

  /** The quads of `ListOf`, after some others: each definition's, then
    * the list cells, then the link to the list. */
  lemma ListOfShape<T(!new)>(pre: seq<Quad>, g: nat, id: Id, p: Term, xs: seq<T>, emit: (Id, T) -> seq<Quad>)
    requires Emits(emit)
    ensures var each := EachFresh(g, xs, emit);
      var list := ToRdfList(each.0, each.2);
      pre + ListOf(g, id, p, xs, emit).1 == pre + each.1 + list.1 + [Quad(id, p, Node(list.2))]
  {
    var each := EachFresh(g, xs, emit);
    var list := ToRdfList(each.0, each.2);
    assert ListOf(g, id, p, xs, emit).1 == each.1 + list.1 + [Quad(id, p, Node(list.2))];
    Regroup3(pre, each.1 + list.1, [Quad(id, p, Node(list.2))]);
  }

  lemma Regroup3<T>(a: seq<T>, b: seq<T>, c: seq<T>)
    ensures a + (b + c) == a + b + c
  {
  }

  /** The fresh nodes `EachFresh` hands out. */
  lemma FreshNodesOf<T(!new)>(g: nat, xs: seq<T>, emit: (Id, T) -> seq<Quad>)
    requires Emits(emit)
    ensures EachFresh(g, xs, emit).2 == FreshNodes(g, |xs|)
  {
  }

  /** A final quad linking `id` to a readable list points to it. */
  lemma PointsToLast(front: seq<Quad>, id: Id, p: Term, head: Id, items: seq<Object>)
    requires ReadList(front + [Quad(id, p, Node(head))], head, |items|) == Some(items)
    ensures PointsTo(front + [Quad(id, p, Node(head))], id, p, items)
  {
    var qs := front + [Quad(id, p, Node(head))];
    assert qs[|qs| - 1] == Quad(id, p, Node(head));
  }

  // Property restrictions.

  datatype Cardinality = AtLeast(min: nat) | AtMost(max: nat) | Exactly(n: nat)

  datatype PropRestriction = RangeAny(ty: Id) | RangeAll(ty: Id) | CardinalityRestriction(c: Cardinality)

  /** `Cardinality::to_rdf`: one quad whose property is the OWL cardinality
    * term of the kind and whose object is the bound as a positive
    * integer literal. */
  function CardinalityToRdf(id: Id, c: Cardinality): (q: Quad)
    ensures q.subject == id && q.obj.Typed? && q.obj.ty == XsdPositiveInteger
    ensures q.property == OwlMinCardinality <==> c.AtLeast?
    ensures q.property == OwlMaxCardinality <==> c.AtMost?
    ensures q.property == OwlCardinality <==> c.Exactly?
  {
    match c
    case AtLeast(n) => Quad(id, OwlMinCardinality, Typed(Values.NatToString(n), XsdPositiveInteger))
    case AtMost(n) => Quad(id, OwlMaxCardinality, Typed(Values.NatToString(n), XsdPositiveInteger))
    case Exactly(n) => Quad(id, OwlCardinality, Typed(Values.NatToString(n), XsdPositiveInteger))
  }

  /** `prop::Restriction::to_rdf`: the node is an OWL restriction on the
    * property, followed by the quad of the restriction itself. */
  function PropRestrictionToRdf(id: Id, property: Id, r: PropRestriction): (qs: seq<Quad>)
    ensures |qs| == 3 && forall q | q in qs :: q.subject == id
    ensures qs[0] == Quad(id, RdfType, Node(Iri(OwlRestriction)))
    ensures qs[1] == Quad(id, OwlOnProperty, Node(property))
  {
    [Quad(id, RdfType, Node(Iri(OwlRestriction))), Quad(id, OwlOnProperty, Node(property))]
    + match r
      case RangeAny(t) => [Quad(id, OwlSomeValuesFrom, Node(t))]
      case RangeAll(t) => [Quad(id, OwlAllValuesFrom, Node(t))]
      case CardinalityRestriction(c) => [CardinalityToRdf(id, c)]
  }

  /** Reads a restriction back from the quad that states it. */
  function ReadRestriction(q: Quad): Option<PropRestriction> {
    if q.property == OwlSomeValuesFrom then (if q.obj.Node? then Some(RangeAny(q.obj.id)) else None)
    else if q.property == OwlAllValuesFrom then (if q.obj.Node? then Some(RangeAll(q.obj.id)) else None)
    else
      var bound := ReadBound(q.obj);
      if bound.None? then None
      else if q.property == OwlMinCardinality then Some(CardinalityRestriction(AtLeast(bound.value)))
      else if q.property == OwlMaxCardinality then Some(CardinalityRestriction(AtMost(bound.value)))
      else if q.property == OwlCardinality then Some(CardinalityRestriction(Exactly(bound.value)))
      else None
  }

  function ReadBound(o: Object): Option<nat> {
    if o.Typed? && o.ty == XsdPositiveInteger && o.text != [] && Values.AllDigits(o.text)
    then Some(Values.DigitsValue(o.text)) else None
  }

  /** Every restriction reads back from the quad it emits. */
  lemma RestrictionRoundTrip(id: Id, property: Id, r: PropRestriction)
    ensures ReadRestriction(PropRestrictionToRdf(id, property, r)[2]) == Some(r)
  {
    if r.CardinalityRestriction? {
      CardinalityRoundTrip(id, r.c);
    }
  }

  /** A cardinality reads back from the quad it emits. */
  lemma CardinalityRoundTrip(id: Id, c: Cardinality)
    ensures ReadRestriction(CardinalityToRdf(id, c)) == Some(CardinalityRestriction(c))
  {
    var n := match c case AtLeast(n) => n case AtMost(n) => n case Exactly(n) => n;
    BoundRoundTrip(n);
    ReadCardinality(CardinalityToRdf(id, c), c, n);
  }

  /** A cardinality quad whose bound reads back reads back as the cardinality. */
  lemma ReadCardinality(q: Quad, c: Cardinality, n: nat)
    requires ReadBound(q.obj) == Some(n)
    requires c == AtLeast(n) || c == AtMost(n) || c == Exactly(n)
    requires q.property == OwlMinCardinality <==> c.AtLeast?
    requires q.property == OwlMaxCardinality <==> c.AtMost?
    requires q.property == OwlCardinality <==> c.Exactly?
    ensures ReadRestriction(q) == Some(CardinalityRestriction(c))
  {
  }

  /** A bound reads back from its positive integer literal. */
  lemma BoundRoundTrip(n: nat)
    ensures ReadBound(Typed(Values.NatToString(n), XsdPositiveInteger)) == Some(n)
  {
    Values.NatToStringValue(n);
  }

  // Types.

  datatype TypeDescription =
    | EmptyType
    | NormalType
    | UnionType(options: seq<Id>)
    | IntersectionType(types: seq<Id>)
    | RestrictionType(property: Id, restrictions: seq<PropRestriction>)

  function Nodes(ids: seq<Id>): (os: seq<Object>)
    ensures |os| == |ids| && forall i :: 0 <= i < |ids| ==> os[i] == Node(ids[i])
  {
    seq(|ids|, i requires 0 <= i < |ids| => Node(ids[i]))
  }

  /** `Union::to_rdf` and `Intersection::to_rdf`: the members in a list that
    * the type points to through `p`. */
  function MembersToRdf(g: nat, id: Id, p: Term, members: seq<Id>): (r: (nat, seq<Quad>))
    ensures r.0 == g + |members|
    ensures SubjectsWithin(r.1, id, g, r.0)
  {
    var list := ToRdfList(g, Nodes(members));
    (list.0, list.1 + [Quad(id, p, Node(list.2))])
  }

  /** The list of a union or intersection holds its members, in order. */
  lemma MembersRead(pre: seq<Quad>, g: nat, id: Id, p: Term, members: seq<Id>)
    requires BlanksBelow(pre, g)
    ensures PointsTo(pre + MembersToRdf(g, id, p, members).1, id, p, Nodes(members))
  {
    var list := ToRdfList(g, Nodes(members));
    ToRdfListReads(g, Nodes(members), pre, [Quad(id, p, Node(list.2))]);
    assert pre + MembersToRdf(g, id, p, members).1 == pre + list.1 + [Quad(id, p, Node(list.2))];
  }

  /** `ty::Restriction::to_rdf`: a single restriction is stated on the type
    * itself; several each get a fresh node, and the type is their
    * intersection.  With no restriction the source panics. */
  function TypeRestrictionToRdf(g: nat, id: Id, property: Id, rs: seq<PropRestriction>): (r: (nat, seq<Quad>))
    requires |rs| > 0
    ensures |rs| == 1 ==> r.0 == g && r.1 == PropRestrictionToRdf(id, property, rs[0])
    ensures |rs| > 1 ==> r.0 == g + 2 * |rs|
    ensures SubjectsWithin(r.1, id, g, r.0)
  {
    var emit := RestrictionEmit(property);
    if |rs| == 1 then (g, PropRestrictionToRdf(id, property, rs[0]))
    else
      RestrictionEmits(property);
      ListOf(g, id, OwlIntersectionOf, rs, emit)
  }

  /** The quads of one restriction on `property`, stated on a given node. */
  function RestrictionEmit(property: Id): (Id, PropRestriction) -> seq<Quad> {
    (rid: Id, x: PropRestriction) => PropRestrictionToRdf(rid, property, x)
  }

  lemma RestrictionEmits(property: Id)
    ensures Emits(RestrictionEmit(property))
  {
  }

  /** Several restrictions: the type is the intersection of the fresh
    * restriction nodes. */
  lemma TypeRestrictionList(pre: seq<Quad>, g: nat, id: Id, property: Id, rs: seq<PropRestriction>)
    requires |rs| > 1 && BlanksBelow(pre, g)
    ensures PointsTo(pre + TypeRestrictionToRdf(g, id, property, rs).1, id, OwlIntersectionOf, FreshNodes(g, |rs|))
  {
    var emit := RestrictionEmit(property);
    RestrictionEmits(property);
    ListOfReads(pre, g, id, OwlIntersectionOf, rs, emit);
  }

  /** Each fresh restriction node is an OWL restriction on the property. */
  lemma TypeRestrictionNodes(g: nat, id: Id, property: Id, rs: seq<PropRestriction>, j: nat)
    requires |rs| > 1 && g <= j < g + |rs|
    ensures Lookup(TypeRestrictionToRdf(g, id, property, rs).1, Blank(j), OwlOnProperty) == Some(Node(property))
  {
    var emit := RestrictionEmit(property);
    RestrictionEmits(property);
    RestrictionOnProperty(Blank(j), property, rs[j - g]);
    ListOfLookup([], g, id, OwlIntersectionOf, rs, emit, j, OwlOnProperty);
    assert [] + ListOf(g, id, OwlIntersectionOf, rs, emit).1 == TypeRestrictionToRdf(g, id, property, rs).1;
  }

  /** A restriction node names its property. */
  lemma RestrictionOnProperty(id: Id, property: Id, r: PropRestriction)
    ensures Lookup(PropRestrictionToRdf(id, property, r), id, OwlOnProperty) == Some(Node(property))
  {
    var own := PropRestrictionToRdf(id, property, r);
    assert own[1..][0] == own[1];
  }

  /** A fresh node's quads are found where its definition put them. */
  lemma ListOfLookup<T(!new)>(pre: seq<Quad>, g: nat, id: Id, p: Term, xs: seq<T>, emit: (Id, T) -> seq<Quad>, j: nat, prop: Term)
    requires Emits(emit) && BlanksBelow(pre, g) && g <= j < g + |xs|
    requires Lookup(emit(Blank(j), xs[j - g]), Blank(j), prop).Some?
    ensures Lookup(pre + ListOf(g, id, p, xs, emit).1, Blank(j), prop) == Lookup(emit(Blank(j), xs[j - g]), Blank(j), prop)
  {
    var each := EachFresh(g, xs, emit);
    var list := ToRdfList(each.0, each.2);
    var rest := list.1 + [Quad(id, p, Node(list.2))];
    Regroup3(each.1, list.1, [Quad(id, p, Node(list.2))]);
    BelowAvoids(pre, g, j);
    LookupSkip(pre, each.1 + rest, Blank(j), prop);
    var i := j - g;
    assert g + i == j;
    EachFreshLookup(g, xs, emit, i, prop, rest);
  }

  /** Quads whose blank subjects come before `g` have none at or after it. */
  lemma BelowAvoids(qs: seq<Quad>, g: nat, j: nat)
    requires BlanksBelow(qs, g) && g <= j
    ensures forall i :: 0 <= i < |qs| ==> qs[i].subject != Blank(j)
  {
  }

  lemma {:induction false} LookupFound(a: seq<Quad>, b: seq<Quad>, s: Id, p: Term)
    requires Lookup(a, s, p).Some?
    ensures Lookup(a + b, s, p) == Lookup(a, s, p)
    decreases |a|
  {
    assert a != [];
    if !(a[0].subject == s && a[0].property == p) {
      assert (a + b)[1..] == a[1..] + b;
      LookupFound(a[1..], b, s, p);
    }
  }

  /** Looking up a fresh node among the emitted quads finds what its own
    * definition emitted. */
  lemma {:induction false} EachFreshLookup<T(!new)>(g: nat, xs: seq<T>, emit: (Id, T) -> seq<Quad>, i: nat, p: Term, rest: seq<Quad>)
    requires Emits(emit) && i < |xs|
    requires Lookup(emit(Blank(g + i), xs[i]), Blank(g + i), p).Some?
    ensures Lookup(EachFresh(g, xs, emit).1 + rest, Blank(g + i), p) == Lookup(emit(Blank(g + i), xs[i]), Blank(g + i), p)
    decreases |xs|
  {
    var first := emit(Blank(g), xs[0]);
    var later := EachFresh(g + 1, xs[1..], emit).1;
    assert EachFresh(g, xs, emit).1 + rest == first + (later + rest);
    if i == 0 {
      LookupFound(first, later + rest, Blank(g), p);
    } else {
      forall j | 0 <= j < |first| ensures first[j].subject != Blank(g + i) {
        assert first[j] in first;
      }
      LookupSkip(first, later + rest, Blank(g + i), p);
      assert xs[1..][i - 1] == xs[i] && g + 1 + (i - 1) == g + i;
      EachFreshLookup(g + 1, xs[1..], emit, i - 1, p, rest);
    }
  }

  /** `ty::Definition::to_rdf`: the type is an RDFS class, and a union,
    * intersection or restriction adds its own quads. */
  function TypeToRdf(g: nat, id: Id, d: TypeDescription): (r: (nat, seq<Quad>))
    requires d.RestrictionType? ==> |d.restrictions| > 0
    ensures |r.1| > 0 && r.1[0] == Quad(id, RdfType, Node(Iri(RdfsClass)))
    ensures d.EmptyType? || d.NormalType? ==> r == (g, [r.1[0]])
    ensures r.0 >= g && SubjectsWithin(r.1, id, g, r.0)
  {
    var head := [Quad(id, RdfType, Node(Iri(RdfsClass)))];
    match d
    case EmptyType => (g, head)
    case NormalType => (g, head)
    case UnionType(options) =>
      var m := MembersToRdf(g, id, OwlUnionOf, options); (m.0, head + m.1)
    case IntersectionType(types) =>
      var m := MembersToRdf(g, id, OwlIntersectionOf, types); (m.0, head + m.1)
    case RestrictionType(property, rs) =>
      var m := TypeRestrictionToRdf(g, id, property, rs); (m.0, head + m.1)
  }

  /** A union or intersection type points to the list of its members, and
    * a type with several restrictions to the list of their fresh nodes. */
  lemma TypeToRdfMeaning(g: nat, id: Id, d: TypeDescription)
    requires d.RestrictionType? ==> |d.restrictions| > 0
    requires id.Blank? ==> id.blank < g
    ensures d.UnionType? ==> PointsTo(TypeToRdf(g, id, d).1, id, OwlUnionOf, Nodes(d.options))
    ensures d.IntersectionType? ==> PointsTo(TypeToRdf(g, id, d).1, id, OwlIntersectionOf, Nodes(d.types))
    ensures d.RestrictionType? && |d.restrictions| > 1 ==>
      PointsTo(TypeToRdf(g, id, d).1, id, OwlIntersectionOf, FreshNodes(g, |d.restrictions|))
    ensures d.RestrictionType? && |d.restrictions| == 1 ==>
      TypeToRdf(g, id, d).1[1..] == PropRestrictionToRdf(id, d.property, d.restrictions[0])
  {
    match d
    case UnionType(options) => MembersMeaning(g, id, d, OwlUnionOf, options);
    case IntersectionType(types) => MembersMeaning(g, id, d, OwlIntersectionOf, types);
    case RestrictionType(property, rs) =>
      if |rs| > 1 {
        RestrictionsMeaning(g, id, property, rs);
      } else {
        SingleRestrictionMeaning(g, id, property, rs);
      }
    case _ =>
  }

  /** The class quad comes first, before any blank node. */
  lemma ClassHeadBelow(g: nat, id: Id)
    requires id.Blank? ==> id.blank < g
    ensures BlanksBelow([Quad(id, RdfType, Node(Iri(RdfsClass)))], g)
  {
  }

  lemma MembersMeaning(g: nat, id: Id, d: TypeDescription, p: Term, members: seq<Id>)
    requires id.Blank? ==> id.blank < g
    requires (d == UnionType(members) && p == OwlUnionOf) || (d == IntersectionType(members) && p == OwlIntersectionOf)
    ensures PointsTo(TypeToRdf(g, id, d).1, id, p, Nodes(members))
  {
    var head := [Quad(id, RdfType, Node(Iri(RdfsClass)))];
    ClassHeadBelow(g, id);
    assert TypeToRdf(g, id, d).1 == head + MembersToRdf(g, id, p, members).1;
    MembersRead(head, g, id, p, members);
  }

  lemma RestrictionsMeaning(g: nat, id: Id, property: Id, rs: seq<PropRestriction>)
    requires id.Blank? ==> id.blank < g
    requires |rs| > 1
    ensures PointsTo(TypeToRdf(g, id, RestrictionType(property, rs)).1, id, OwlIntersectionOf, FreshNodes(g, |rs|))
  {
    var head := [Quad(id, RdfType, Node(Iri(RdfsClass)))];
    ClassHeadBelow(g, id);
    RestrictionTypeQuads(g, id, property, rs);
    TypeRestrictionList(head, g, id, property, rs);
  }

  /** A restriction type is a class whose restrictions follow. */
  lemma RestrictionTypeQuads(g: nat, id: Id, property: Id, rs: seq<PropRestriction>)
    requires |rs| > 0
    ensures TypeToRdf(g, id, RestrictionType(property, rs)).1
      == [Quad(id, RdfType, Node(Iri(RdfsClass)))] + TypeRestrictionToRdf(g, id, property, rs).1
  {
  }

  lemma SingleRestrictionMeaning(g: nat, id: Id, property: Id, rs: seq<PropRestriction>)
    requires |rs| == 1
    ensures TypeToRdf(g, id, RestrictionType(property, rs)).1[1..] == PropRestrictionToRdf(id, property, rs[0])
  {
    var head := [Quad(id, RdfType, Node(Iri(RdfsClass)))];
    assert TypeToRdf(g, id, RestrictionType(property, rs)).1 == head + PropRestrictionToRdf(id, property, rs[0]);
  }

  // Properties and documentation.

  datatype PropertyDef = PropertyDef(domain: seq<Id>, range: Id, required: bool, functional: bool)

  function DomainQuads(id: Id, domain: seq<Id>): (qs: seq<Quad>)
    ensures forall q | q in qs :: q.subject == id && q.property == RdfsDomain
    ensures forall t :: Quad(id, RdfsDomain, Node(t)) in qs <==> t in domain
  {
    var qs := seq(|domain|, i requires 0 <= i < |domain| => Quad(id, RdfsDomain, Node(domain[i])));
    assert forall t :: t in domain ==> Quad(id, RdfsDomain, Node(t)) in qs by {
      forall t | t in domain ensures Quad(id, RdfsDomain, Node(t)) in qs {
        var i :| 0 <= i < |domain| && domain[i] == t;
        assert qs[i] == Quad(id, RdfsDomain, Node(t));
      }
    }
    qs
  }

  /** `prop::Definition::to_rdf`: an RDF property with its domains and range;
    * `schema:valueRequired` exactly when required and
    * `schema:multipleValues` exactly when not functional. */
  function PropertyToRdf(id: Id, p: PropertyDef): (qs: seq<Quad>)
    ensures forall q | q in qs :: q.subject == id
    ensures Quad(id, RdfType, Node(Iri(RdfProperty))) in qs
    ensures forall t :: Quad(id, RdfsDomain, Node(t)) in qs <==> t in p.domain
    ensures forall t :: Quad(id, RdfsRange, Node(t)) in qs <==> t == p.range
    ensures Quad(id, SchemaValueRequired, TrueObject) in qs <==> p.required
    ensures Quad(id, SchemaMultipleValues, TrueObject) in qs <==> !p.functional
  {
    [Quad(id, RdfType, Node(Iri(RdfProperty)))]
    + DomainQuads(id, p.domain)
    + [Quad(id, RdfsRange, Node(p.range))]
    + (if p.required then [Quad(id, SchemaValueRequired, TrueObject)] else [])
    + (if !p.functional then [Quad(id, SchemaMultipleValues, TrueObject)] else [])
  }

  /** `Documentation::to_rdf`: one `rdfs:comment` per block, in order. */
  function DocToRdf(id: Id, blocks: seq<string>): (qs: seq<Quad>)
    ensures |qs| == |blocks|
    ensures forall q | q in qs :: q.subject == id && q.property == RdfsComment
  {
    seq(|blocks|, i requires 0 <= i < |blocks| => Quad(id, RdfsComment, Str(blocks[i])))
  }

  /** The comments of a node, in the order the quads give them. */
  function CommentsOf(qs: seq<Quad>, id: Id): seq<string>
    decreases |qs|
  {
    if qs == [] then []
    else
      var q := qs[|qs| - 1];
      CommentsOf(qs[..|qs| - 1], id)
      + (if q.subject == id && q.property == RdfsComment && q.obj.Str? then [q.obj.text] else [])
  }

  lemma {:induction false} CommentsOfAppend(a: seq<Quad>, b: seq<Quad>, id: Id)
    ensures CommentsOf(a + b, id) == CommentsOf(a, id) + CommentsOf(b, id)
    decreases |b|
  {
    if b == [] {
      assert a + b == a;
    } else {
      var n := |b| - 1;
      assert (a + b)[..|a + b| - 1] == a + b[..n];
      CommentsOfAppend(a, b[..n], id);
    }
  }

  lemma {:induction false} NoComments(qs: seq<Quad>, id: Id)
    requires forall q | q in qs :: q.property != RdfsComment
    ensures CommentsOf(qs, id) == []
    decreases |qs|
  {
    if qs != [] {
      assert qs[|qs| - 1] in qs;
      assert forall q | q in qs[..|qs| - 1] :: q in qs;
      NoComments(qs[..|qs| - 1], id);
    }
  }

  /** The comments written for the blocks read back as the blocks. */
  lemma {:induction false} DocRoundTrip(id: Id, blocks: seq<string>)
    ensures CommentsOf(DocToRdf(id, blocks), id) == blocks
    decreases |blocks|
  {
    if blocks != [] {
      var n := |blocks| - 1;
      assert DocToRdf(id, blocks)[..n] == DocToRdf(id, blocks[..n]);
      DocRoundTrip(id, blocks[..n]);
      assert blocks[..n] + [blocks[n]] == blocks;
    }
  }

  // Layouts.

  /** `Literal::to_rdf`: a singleton expression is written as the word it
    * matches, any other as its source text `show` gives. */
  function LiteralToRdf(id: Id, re: RegExps.RegExp, show: RegExps.RegExp -> string): (q: Quad)
    ensures q.subject == id && q.obj.Str?
    ensures q.property == TldrSingleton || q.property == TldrMatches
    ensures q.property == TldrSingleton <==> RegExps.IsSingleton(re)
  {
    match RegExps.AsSingleton(re)
    case Some(w) => Quad(id, TldrSingleton, Str(w))
    case None => Quad(id, TldrMatches, Str(show(re)))
  }

  /** The expression of a string literal is written back as that string. */
  lemma LiteralOfString(id: Id, s: string, show: RegExps.RegExp -> string)
    ensures LiteralToRdf(id, RegExps.FromString(s), show) == Quad(id, TldrSingleton, Str(s))
  {
    RegExps.FromStringAsSingleton(s);
  }

  datatype Field = Field(property: Option<Id>, layout: Id, name: string, required: bool, rdfsLabel: Option<string>, doc: seq<string>)

  datatype Variant = Variant(layout: Option<Id>, name: string, rdfsLabel: Option<string>, doc: seq<string>)

  /** `Field::to_rdf` on the field's fresh node. */
  function FieldToRdf(id: Id, f: Field): (qs: seq<Quad>)
    ensures forall q | q in qs :: q.subject == id
    ensures |qs| > 0 && qs[0] == Quad(id, RdfType, Node(Iri(TldrField)))
    ensures Quad(id, TldrFormat, Node(f.layout)) in qs
    ensures Quad(id, TldrName, Str(f.name)) in qs
    ensures forall t :: Quad(id, TldrFieldFor, Node(t)) in qs <==> f.property == Some(t)
    ensures Quad(id, SchemaValueRequired, TrueObject) in qs <==> f.required
    ensures forall l :: Quad(id, RdfsLabel, Str(l)) in qs <==> f.rdfsLabel == Some(l)
  {
    FieldHead(id, f) + DocToRdf(id, f.doc)
  }

  function FieldHead(id: Id, f: Field): (qs: seq<Quad>)
    ensures forall q | q in qs :: q.property != RdfsComment && q.subject == id
    ensures forall q | q in qs && q.property == TldrName :: q.obj == Str(f.name)
    ensures |qs| > 0 && qs[0] == Quad(id, RdfType, Node(Iri(TldrField)))
    ensures Quad(id, TldrFormat, Node(f.layout)) in qs
    ensures Quad(id, TldrName, Str(f.name)) in qs
    ensures forall t :: Quad(id, TldrFieldFor, Node(t)) in qs <==> f.property == Some(t)
    ensures Quad(id, SchemaValueRequired, TrueObject) in qs <==> f.required
    ensures forall l :: Quad(id, RdfsLabel, Str(l)) in qs <==> f.rdfsLabel == Some(l)
  {
    var core := FieldCore(id, f);
    var extras := FieldExtras(id, f);
    assert core[0] == (core + extras)[0];
    core + extras
  }

  /** The typing, property, layout and name quads of a field. */
  function FieldCore(id: Id, f: Field): (qs: seq<Quad>)
    ensures forall q | q in qs :: q.property != RdfsComment && q.subject == id
    ensures forall q | q in qs :: q.property != SchemaValueRequired && q.property != RdfsLabel
    ensures forall q | q in qs && q.property == TldrName :: q.obj == Str(f.name)
    ensures |qs| > 0 && qs[0] == Quad(id, RdfType, Node(Iri(TldrField)))
    ensures Quad(id, TldrFormat, Node(f.layout)) in qs
    ensures Quad(id, TldrName, Str(f.name)) in qs
    ensures forall t :: Quad(id, TldrFieldFor, Node(t)) in qs <==> f.property == Some(t)
  {
    [Quad(id, RdfType, Node(Iri(TldrField)))]
    + OptQuad(id, TldrFieldFor, OptNode(f.property))
    + [Quad(id, TldrFormat, Node(f.layout)), Quad(id, TldrName, Str(f.name))]
  }

  /** The required and label quads of a field. */
  function FieldExtras(id: Id, f: Field): (qs: seq<Quad>)
    ensures forall q | q in qs :: q.subject == id
    ensures forall q | q in qs :: q.property == SchemaValueRequired || q.property == RdfsLabel
    ensures Quad(id, SchemaValueRequired, TrueObject) in qs <==> f.required
    ensures forall l :: Quad(id, RdfsLabel, Str(l)) in qs <==> f.rdfsLabel == Some(l)
  {
    (if f.required then [Quad(id, SchemaValueRequired, TrueObject)] else [])
    + OptQuad(id, RdfsLabel, OptStr(f.rdfsLabel))
  }

  /** `Variant::to_rdf` on the variant's fresh node. */
  function VariantToRdf(id: Id, v: Variant): (qs: seq<Quad>)
    ensures forall q | q in qs :: q.subject == id
    ensures |qs| > 0 && qs[0] == Quad(id, RdfType, Node(Iri(TldrVariant)))
    ensures Quad(id, TldrName, Str(v.name)) in qs
    ensures forall t :: Quad(id, TldrFormat, Node(t)) in qs <==> v.layout == Some(t)
    ensures forall l :: Quad(id, RdfsLabel, Str(l)) in qs <==> v.rdfsLabel == Some(l)
  {
    VariantHead(id, v) + DocToRdf(id, v.doc)
  }

  function VariantHead(id: Id, v: Variant): (qs: seq<Quad>)
    ensures forall q | q in qs :: q.property != RdfsComment && q.subject == id
    ensures |qs| > 0 && qs[0] == Quad(id, RdfType, Node(Iri(TldrVariant)))
    ensures Quad(id, TldrName, Str(v.name)) in qs
    ensures forall t :: Quad(id, TldrFormat, Node(t)) in qs <==> v.layout == Some(t)
    ensures forall l :: Quad(id, RdfsLabel, Str(l)) in qs <==> v.rdfsLabel == Some(l)
  {
    [Quad(id, RdfType, Node(Iri(TldrVariant)))]
    + OptQuad(id, TldrFormat, OptNode(v.layout))
    + [Quad(id, TldrName, Str(v.name))]
    + OptQuad(id, RdfsLabel, OptStr(v.rdfsLabel))
  }

  /** The documentation of a field is exactly its comments. */
  lemma FieldComments(id: Id, f: Field)
    ensures CommentsOf(FieldToRdf(id, f), id) == f.doc
  {
    NoComments(FieldHead(id, f), id);
    CommentsOfAppend(FieldHead(id, f), DocToRdf(id, f.doc), id);
    DocRoundTrip(id, f.doc);
  }

  /** The documentation of a variant is exactly its comments. */
  lemma VariantComments(id: Id, v: Variant)
    ensures CommentsOf(VariantToRdf(id, v), id) == v.doc
  {
    NoComments(VariantHead(id, v), id);
    CommentsOfAppend(VariantHead(id, v), DocToRdf(id, v.doc), id);
    DocRoundTrip(id, v.doc);
  }

  datatype ArraySemantics = ArraySemantics(first: Option<Id>, rest: Option<Id>, nil: Option<Object>)

  datatype LayoutDescription =
    | Never
    | PrimitiveLayout(primitive: Primitive)
    | LiteralLayout(regexp: RegExps.RegExp)
    | StructLayout(fields: seq<Field>)
    | EnumLayout(variants: seq<Variant>)
    | ArrayLayout(item: Id, semantics: Option<ArraySemantics>)
    | SetLayout(item: Id)
    | Reference(target: Id)
    | Alias(target: Id)

  datatype LayoutDef = LayoutDef(ty: Option<Id>, name: Option<string>, desc: LayoutDescription)

  /** `BoundedPrimitive::to_rdf`: a layout other than the primitive's own
    * vocabulary term is an alias of it. */
  function PrimitiveToRdf(id: Id, p: Primitive): (qs: seq<Quad>)
    ensures qs == [] <==> id.Iri? && id.term.TldrPrimitive?
    ensures qs != [] ==> qs == [Quad(id, TldrAlias, Node(Iri(TldrPrimitive(p))))]
  {
    match id
    case Iri(TldrPrimitive(_)) => []
    case _ => [Quad(id, TldrAlias, Node(Iri(TldrPrimitive(p))))]
  }

  function ArrayToRdf(id: Id, item: Id, semantics: Option<ArraySemantics>): (qs: seq<Quad>)
    ensures forall q | q in qs :: q.subject == id
  {
    [Quad(id, TldrArray, Node(item))]
    + match semantics
      case None => []
      case Some(s) =>
        OptQuad(id, TldrArrayListFirst, OptNode(s.first))
        + OptQuad(id, TldrArrayListRest, OptNode(s.rest))
        + OptQuad(id, TldrArrayListNil, s.nil)
  }

  /** The quads every layout starts with. */
  function LayoutHead(id: Id, d: LayoutDef): (qs: seq<Quad>)
    ensures forall q | q in qs :: q.subject == id
    ensures |qs| > 0 && qs[0] == Quad(id, RdfType, Node(Iri(TldrLayout)))
    ensures forall t :: Quad(id, TldrLayoutFor, Node(t)) in qs <==> d.ty == Some(t)
    ensures forall n :: Quad(id, TldrName, Str(n)) in qs <==> d.name == Some(n)
  {
    [Quad(id, RdfType, Node(Iri(TldrLayout)))]
    + OptQuad(id, TldrLayoutFor, OptNode(d.ty))
    + OptQuad(id, TldrName, OptStr(d.name))
  }

  /** `layout::Definition::to_rdf`.  `Never` layouts reach a `todo!()` in
    * the source and are excluded. */
  function LayoutToRdf(g: nat, id: Id, d: LayoutDef, show: RegExps.RegExp -> string): (r: (nat, seq<Quad>))
    requires !d.desc.Never?
    ensures |r.1| >= |LayoutHead(id, d)| && r.1[..|LayoutHead(id, d)|] == LayoutHead(id, d)
    ensures r.0 >= g && SubjectsWithin(r.1, id, g, r.0)
  {
    var r := DescriptionToRdf(g, id, d.desc, show);
    assert (LayoutHead(id, d) + r.1)[..|LayoutHead(id, d)|] == LayoutHead(id, d);
    (r.0, LayoutHead(id, d) + r.1)
  }

  /** The quads of each kind of layout description. */
  function DescriptionToRdf(g: nat, id: Id, desc: LayoutDescription, show: RegExps.RegExp -> string): (r: (nat, seq<Quad>))
    requires !desc.Never?
    ensures r.0 >= g && SubjectsWithin(r.1, id, g, r.0)
  {
    match desc
    case PrimitiveLayout(p) => (g, PrimitiveToRdf(id, p))
    case LiteralLayout(re) => (g, [LiteralToRdf(id, re, show)])
    case StructLayout(fields) => ListOf(g, id, TldrFields, fields, FieldToRdf)
    case EnumLayout(variants) => ListOf(g, id, TldrEnumeration, variants, VariantToRdf)
    case ArrayLayout(item, semantics) => (g, ArrayToRdf(id, item, semantics))
    case SetLayout(item) => (g, [Quad(id, TldrSet, Node(item))])
    case Reference(t) => (g, [Quad(id, TldrDerefTo, Node(t))])
    case Alias(t) => (g, [Quad(id, TldrAlias, Node(t))])
  }

  /** A structure points to the list of its fields' fresh nodes, and each
    * of those nodes carries the name of its field. */
  lemma StructLayoutMeaning(g: nat, id: Id, d: LayoutDef, show: RegExps.RegExp -> string, j: nat)
    requires d.desc.StructLayout? && (id.Blank? ==> id.blank < g)
    ensures PointsTo(LayoutToRdf(g, id, d, show).1, id, TldrFields, FreshNodes(g, |d.desc.fields|))
    ensures g <= j < g + |d.desc.fields| ==>
      Lookup(LayoutToRdf(g, id, d, show).1, Blank(j), TldrName) == Some(Str(d.desc.fields[j - g].name))
  {
    var head := LayoutHead(id, d);
    StructShape(g, id, d, show);
    ListOfReads(head, g, id, TldrFields, d.desc.fields, FieldToRdf);
    if g <= j < g + |d.desc.fields| {
      StructFieldName(g, id, d, show, j);
    }
  }

  /** A structure's quads: its head, then the list of its fields. */
  lemma StructShape(g: nat, id: Id, d: LayoutDef, show: RegExps.RegExp -> string)
    requires d.desc.StructLayout? && (id.Blank? ==> id.blank < g)
    ensures BlanksBelow(LayoutHead(id, d), g) && Emits(FieldToRdf)
    ensures LayoutToRdf(g, id, d, show).1 == LayoutHead(id, d) + ListOf(g, id, TldrFields, d.desc.fields, FieldToRdf).1
  {
    LayoutHeadBelow(g, id, d);
    FieldEmits();
  }

  lemma LayoutHeadBelow(g: nat, id: Id, d: LayoutDef)
    requires id.Blank? ==> id.blank < g
    ensures BlanksBelow(LayoutHead(id, d), g)
  {
    var head := LayoutHead(id, d);
    assert forall i :: 0 <= i < |head| ==> head[i] in head;
  }

  lemma FieldEmits()
    ensures Emits(FieldToRdf)
  {
    forall id, x, q | q in FieldToRdf(id, x) ensures q.subject == id {
    }
  }

  lemma StructFieldName(g: nat, id: Id, d: LayoutDef, show: RegExps.RegExp -> string, j: nat)
    requires d.desc.StructLayout? && (id.Blank? ==> id.blank < g) && g <= j < g + |d.desc.fields|
    ensures Lookup(LayoutToRdf(g, id, d, show).1, Blank(j), TldrName) == Some(Str(d.desc.fields[j - g].name))
  {
    StructShape(g, id, d, show);
    FieldNameLookup(Blank(j), d.desc.fields[j - g]);
    ListOfLookup(LayoutHead(id, d), g, id, TldrFields, d.desc.fields, FieldToRdf, j, TldrName);
  }

  lemma FieldNameLookup(id: Id, f: Field)
    ensures Lookup(FieldToRdf(id, f), id, TldrName) == Some(Str(f.name))
  {
    LookupUnique(FieldToRdf(id, f), id, TldrName, Str(f.name));
  }

  /** A subject and property with a single object are found with it. */
  lemma {:induction false} LookupUnique(qs: seq<Quad>, s: Id, p: Term, o: Object)
    requires Quad(s, p, o) in qs
    requires forall q | q in qs && q.subject == s && q.property == p :: q.obj == o
    ensures Lookup(qs, s, p) == Some(o)
    decreases |qs|
  {
    if qs[0] != Quad(s, p, o) {
      assert Quad(s, p, o) in qs[1..];
      assert forall q | q in qs[1..] :: q in qs;
      LookupUnique(qs[1..], s, p, o);
    }
  }

  lemma {:induction false} LookupSkipProperty(a: seq<Quad>, b: seq<Quad>, s: Id, p: Term)
    requires forall i :: 0 <= i < |a| ==> a[i].property != p
    ensures Lookup(a + b, s, p) == Lookup(b, s, p)
    decreases |a|
  {
    if a != [] {
      assert (a + b)[0] == a[0];
      assert (a + b)[1..] == a[1..] + b;
      assert Lookup(a + b, s, p) == Lookup((a + b)[1..], s, p);
      assert forall i :: 0 <= i < |a[1..]| ==> a[1..][i] == a[i + 1];
      LookupSkipProperty(a[1..], b, s, p);
    } else {
      assert a + b == b;
    }
  }

  /** An enumeration points to the list of its variants' fresh nodes. */
  lemma EnumLayoutMeaning(g: nat, id: Id, d: LayoutDef, show: RegExps.RegExp -> string)
    requires d.desc.EnumLayout? && (id.Blank? ==> id.blank < g)
    ensures PointsTo(LayoutToRdf(g, id, d, show).1, id, TldrEnumeration, FreshNodes(g, |d.desc.variants|))
  {
    var head := LayoutHead(id, d);
    assert BlanksBelow(head, g);
    VariantEmits();
    EnumDescription(g, id, d.desc.variants, show);
    ListOfReads(head, g, id, TldrEnumeration, d.desc.variants, VariantToRdf);
  }

  lemma VariantEmits()
    ensures Emits(VariantToRdf)
  {
    forall id, x, q | q in VariantToRdf(id, x) ensures q.subject == id {
    }
  }

  lemma EnumDescription(g: nat, id: Id, vs: seq<Variant>, show: RegExps.RegExp -> string)
    ensures Emits(VariantToRdf)
    ensures DescriptionToRdf(g, id, EnumLayout(vs), show) == ListOf(g, id, TldrEnumeration, vs, VariantToRdf)
  {
    VariantEmits();
  }

  // Whole models.

  datatype NodeDef = NodeDef(
    id: Id,
    ty: Option<TypeDescription>,
    property: Option<PropertyDef>,
    layout: Option<LayoutDef>,
    rdfsLabel: Option<string>,
    doc: seq<string>)

  /** The definitions of a node the export can write without reaching a
    * panic or a `todo!()`. */
  predicate Emittable(n: NodeDef) {
    && (n.ty.Some? && n.ty.value.RestrictionType? ==> |n.ty.value.restrictions| > 0)
    && (n.layout.Some? ==> !n.layout.value.desc.Never?)
  }

  /** Whether `to_rdf_with` passes over a node. */
  predicate Skipped(n: NodeDef, ignoreStandard: bool) {
    ignoreStandard && IsStandardVocabulary(n.id)
  }

  /** The quads of one node: its type, property and layout definitions,
    * its label and its documentation. */
  function NodeToRdf(g: nat, n: NodeDef, show: RegExps.RegExp -> string): (r: (nat, seq<Quad>))
    requires Emittable(n)
    ensures r.0 >= g && SubjectsWithin(r.1, n.id, g, r.0)
  {
    var t := NodeType(g, n);
    var l := NodeLayout(t.0, n, show);
    var p := NodeProperty(n);
    var own := OptQuad(n.id, RdfsLabel, OptStr(n.rdfsLabel)) + DocToRdf(n.id, n.doc);
    assert SubjectsWithin(own, n.id, l.0, l.0);
    SubjectsJoin(t.1, p, n.id, g, t.0, t.0);
    SubjectsJoin(t.1 + p, l.1, n.id, g, t.0, l.0);
    SubjectsJoin(t.1 + p + l.1, own, n.id, g, l.0, l.0);
    (l.0, t.1 + p + l.1 + own)
  }

  /** The type definition's quads, if the node defines a type. */
  function NodeType(g: nat, n: NodeDef): (r: (nat, seq<Quad>))
    requires Emittable(n)
    ensures r.0 >= g && SubjectsWithin(r.1, n.id, g, r.0)
    ensures n.ty.Some? ==> Quad(n.id, RdfType, Node(Iri(RdfsClass))) in r.1
  {
    if n.ty.Some? then
      var t := TypeToRdf(g, n.id, n.ty.value);
      assert t.1[0] in t.1;
      t
    else (g, [])
  }

  /** The layout definition's quads, if the node defines a layout. */
  function NodeLayout(g: nat, n: NodeDef, show: RegExps.RegExp -> string): (r: (nat, seq<Quad>))
    requires Emittable(n)
    ensures r.0 >= g && SubjectsWithin(r.1, n.id, g, r.0)
    ensures n.layout.Some? ==> Quad(n.id, RdfType, Node(Iri(TldrLayout))) in r.1
  {
    if n.layout.Some? then
      var l := LayoutToRdf(g, n.id, n.layout.value, show);
      assert l.1[0] == LayoutHead(n.id, n.layout.value)[0];
      assert l.1[0] in l.1;
      l
    else (g, [])
  }

  /** The property definition's quads, if the node defines a property. */
  function NodeProperty(n: NodeDef): (qs: seq<Quad>)
    ensures forall q | q in qs :: q.subject == n.id
    ensures n.property.Some? ==> Quad(n.id, RdfType, Node(Iri(RdfProperty))) in qs
  {
    if n.property.Some? then PropertyToRdf(n.id, n.property.value) else []
  }

  /** The quads of a node hold its label, and the typing quad of each
    * kind of definition it has. */
  lemma NodeQuads(g: nat, n: NodeDef, show: RegExps.RegExp -> string)
    requires Emittable(n)
    ensures var qs := NodeToRdf(g, n, show).1;
      && (n.rdfsLabel.Some? ==> Quad(n.id, RdfsLabel, Str(n.rdfsLabel.value)) in qs)
      && (n.property.Some? ==> Quad(n.id, RdfType, Node(Iri(RdfProperty))) in qs)
      && (n.ty.Some? ==> Quad(n.id, RdfType, Node(Iri(RdfsClass))) in qs)
      && (n.layout.Some? ==> Quad(n.id, RdfType, Node(Iri(TldrLayout))) in qs)
  {
    var t := NodeType(g, n);
    var l := NodeLayout(t.0, n, show);
    var p := NodeProperty(n);
    var own := OptQuad(n.id, RdfsLabel, OptStr(n.rdfsLabel)) + DocToRdf(n.id, n.doc);
    assert NodeToRdf(g, n, show).1 == t.1 + p + l.1 + own;
    if n.rdfsLabel.Some? {
      assert own[0] == Quad(n.id, RdfsLabel, Str(n.rdfsLabel.value));
    }
  }

  /** Quads with subjects up to `mid`, then quads with subjects from `mid`. */
  lemma SubjectsJoin(a: seq<Quad>, b: seq<Quad>, id: Id, lo: nat, mid: nat, hi: nat)
    requires lo <= mid <= hi && SubjectsWithin(a, id, lo, mid) && SubjectsWithin(b, id, mid, hi)
    ensures SubjectsWithin(a + b, id, lo, hi)
  {
  }

  /** `to_rdf_with`: every node, or with `ignoreStandard` only those outside
    * the standard vocabulary, in order. */
  function ModelToRdf(g: nat, nodes: seq<NodeDef>, ignoreStandard: bool, show: RegExps.RegExp -> string): (r: (nat, seq<Quad>))
    requires forall i :: 0 <= i < |nodes| && !Skipped(nodes[i], ignoreStandard) ==> Emittable(nodes[i])
    ensures r.0 >= g
    ensures forall q | q in r.1 ::
      (q.subject.Blank? && g <= q.subject.blank < r.0) || WrittenNode(nodes, ignoreStandard, q.subject)
    decreases |nodes|
  {
    if nodes == [] then (g, [])
    else
      var first := if Skipped(nodes[0], ignoreStandard) then (g, []) else NodeToRdf(g, nodes[0], show);
      var rest := ModelToRdf(first.0, nodes[1..], ignoreStandard, show);
      WrittenTail(nodes, ignoreStandard, rest.1, g, first.0, rest.0);
      WrittenHead(nodes, ignoreStandard, first.1, g, first.0);
      (rest.0, first.1 + rest.1)
  }

  /** `s` is the identifier of a node the export writes. */
  ghost predicate WrittenNode(nodes: seq<NodeDef>, ignoreStandard: bool, s: Id) {
    exists i :: 0 <= i < |nodes| && !Skipped(nodes[i], ignoreStandard) && s == nodes[i].id
  }

  lemma WrittenTail(nodes: seq<NodeDef>, ignoreStandard: bool, qs: seq<Quad>, g: nat, lo: nat, hi: nat)
    requires nodes != [] && g <= lo
    requires forall q | q in qs ::
      (q.subject.Blank? && lo <= q.subject.blank < hi) || WrittenNode(nodes[1..], ignoreStandard, q.subject)
    ensures forall q | q in qs ::
      (q.subject.Blank? && g <= q.subject.blank < hi) || WrittenNode(nodes, ignoreStandard, q.subject)
  {
    forall q | q in qs && WrittenNode(nodes[1..], ignoreStandard, q.subject)
      ensures WrittenNode(nodes, ignoreStandard, q.subject)
    {
      var k :| 0 <= k < |nodes| - 1 && !Skipped(nodes[1..][k], ignoreStandard) && q.subject == nodes[1..][k].id;
      assert nodes[k + 1] == nodes[1..][k];
    }
  }

  lemma WrittenHead(nodes: seq<NodeDef>, ignoreStandard: bool, qs: seq<Quad>, g: nat, hi: nat)
    requires nodes != []
    requires Skipped(nodes[0], ignoreStandard) ==> qs == []
    requires SubjectsWithin(qs, nodes[0].id, g, hi)
    ensures forall q | q in qs ::
      (q.subject.Blank? && g <= q.subject.blank < hi) || WrittenNode(nodes, ignoreStandard, q.subject)
  {
    if !Skipped(nodes[0], ignoreStandard) {
      assert WrittenNode(nodes, ignoreStandard, nodes[0].id);
    }
  }

  /** Ignoring the standard vocabulary, no quad is about one of its terms:
    * every subject is a blank node or an unknown IRI. */
  lemma ModelIgnoresStandard(g: nat, nodes: seq<NodeDef>, show: RegExps.RegExp -> string)
    requires forall i :: 0 <= i < |nodes| && !Skipped(nodes[i], true) ==> Emittable(nodes[i])
    ensures forall q | q in ModelToRdf(g, nodes, true, show).1 :: !IsStandardVocabulary(q.subject)
  {
  }

  /** Every node written carries its label. */
  lemma {:induction false} ModelLabels(g: nat, nodes: seq<NodeDef>, ignoreStandard: bool, show: RegExps.RegExp -> string, i: nat)
    requires forall i :: 0 <= i < |nodes| && !Skipped(nodes[i], ignoreStandard) ==> Emittable(nodes[i])
    requires i < |nodes| && !Skipped(nodes[i], ignoreStandard) && nodes[i].rdfsLabel.Some?
    ensures Quad(nodes[i].id, RdfsLabel, Str(nodes[i].rdfsLabel.value)) in ModelToRdf(g, nodes, ignoreStandard, show).1
    decreases |nodes|
  {
    if i == 0 {
      ModelFirstLabel(g, nodes, ignoreStandard, show);
    } else {
      var first := if Skipped(nodes[0], ignoreStandard) then (g, []) else NodeToRdf(g, nodes[0], show);
      ModelTailRequires(nodes, ignoreStandard);
      assert nodes[1..][i - 1] == nodes[i];
      ModelLabels(first.0, nodes[1..], ignoreStandard, show, i - 1);
      ModelTail(g, nodes, ignoreStandard, show, Quad(nodes[i].id, RdfsLabel, Str(nodes[i].rdfsLabel.value)));
    }
  }

  lemma ModelTailRequires(nodes: seq<NodeDef>, ignoreStandard: bool)
    requires nodes != []
    requires forall i :: 0 <= i < |nodes| && !Skipped(nodes[i], ignoreStandard) ==> Emittable(nodes[i])
    ensures forall i :: 0 <= i < |nodes[1..]| && !Skipped(nodes[1..][i], ignoreStandard) ==> Emittable(nodes[1..][i])
  {
    assert forall k :: 0 <= k < |nodes[1..]| ==> nodes[1..][k] == nodes[k + 1];
  }

  /** The quads of the first node come first. */
  lemma ModelFirstLabel(g: nat, nodes: seq<NodeDef>, ignoreStandard: bool, show: RegExps.RegExp -> string)
    requires forall i :: 0 <= i < |nodes| && !Skipped(nodes[i], ignoreStandard) ==> Emittable(nodes[i])
    requires 0 < |nodes| && !Skipped(nodes[0], ignoreStandard) && nodes[0].rdfsLabel.Some?
    ensures Quad(nodes[0].id, RdfsLabel, Str(nodes[0].rdfsLabel.value)) in ModelToRdf(g, nodes, ignoreStandard, show).1
  {
    NodeQuads(g, nodes[0], show);
    var first := NodeToRdf(g, nodes[0], show);
    assert ModelToRdf(g, nodes, ignoreStandard, show).1 == first.1 + ModelToRdf(first.0, nodes[1..], ignoreStandard, show).1;
  }

  /** The quads of the other nodes follow. */
  lemma ModelTail(g: nat, nodes: seq<NodeDef>, ignoreStandard: bool, show: RegExps.RegExp -> string, q: Quad)
    requires forall i :: 0 <= i < |nodes| && !Skipped(nodes[i], ignoreStandard) ==> Emittable(nodes[i])
    requires 0 < |nodes|
    requires var first := if Skipped(nodes[0], ignoreStandard) then (g, []) else NodeToRdf(g, nodes[0], show);
      q in ModelToRdf(first.0, nodes[1..], ignoreStandard, show).1
    ensures q in ModelToRdf(g, nodes, ignoreStandard, show).1
  {
  }
}
