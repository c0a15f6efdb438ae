/**
 * Importing the primitive types of a Lexicon document into TreeLDR triples
 * (`modules/lexicon/src/import/primitive.rs`): booleans, integers, strings
 * and unknown types each become a layout, an alias of a primitive layout
 * when unrestricted and a derived one otherwise.
 *
 * The layout's name (`nsid_name` of its IRI), the primitive an integer is
 * stored in (`best_primitive`) and the bounds that primitive does not
 * already imply (`bounds_constraints`) are computed outside this file and
 * are given as inputs.  Restriction lists are written as RDF collections
 * (`rdf:first`, `rdf:rest`, ending in `rdf:nil`), one fresh node per item,
 * the item nodes being generated before the list nodes.
 */
module LexiconPrimitives {
  import opened Wrappers
  import CoreVocab
  import Values

  type Primitive = CoreVocab.Primitive

  /** The vocabulary terms the import writes. */
  datatype Term =
    | RdfType | RdfFirst | RdfRest | RdfNil | RdfsComment
    | TldrLayout | TldrName | TldrDerivedFrom | TldrDefaultValue | TldrAlias
    | TldrWithRestrictions | TldrLayoutRestriction
    | TldrInclusiveMinimum | TldrInclusiveMaximum
    | TldrMinLength | TldrMaxLength | TldrMinGrapheme | TldrMaxGrapheme
    | XsdBoolean | XsdNonNegativeInteger
    | PrimitiveLayout(primitive: Primitive)
    | NaturalType(of: Primitive)

  /** A node: the layout's IRI, a generated blank node, or a term. */
  datatype Node = Iri(iri: string) | Blank(blank: nat) | Vocab(term: Term)

  datatype Object = Id(node: Node) | Str(text: string) | Typed(value: string, ty: Term)

  datatype Triple = Triple(subject: Node, property: Term, obj: Object)

  /** The Lexicon primitive types. */
  datatype LexBoolean = LexBoolean(description: Option<string>, default: Option<bool>, const_: Option<bool>)

  datatype LexInteger = LexInteger(
    description: Option<string>,
    default: Option<int>,
    minimum: Option<int>,
    maximum: Option<int>,
    enum_: Option<seq<int>>,
    const_: Option<int>)

  datatype LexString = LexString(
    description: Option<string>,
    default: Option<string>,
    minLength: Option<nat>,
    maxLength: Option<nat>,
    minGrapheme: Option<nat>,
    maxGrapheme: Option<nat>)

  /** The two triples every processed primitive starts with: the node is
    * a layout, and its name. */
  function Header(id: Node, name: string): (ts: seq<Triple>)
    ensures |ts| == 2
    ensures ts[0] == Triple(id, RdfType, Id(Vocab(TldrLayout)))
    ensures ts[1] == Triple(id, TldrName, Str(name))
  {
    [Triple(id, RdfType, Id(Vocab(TldrLayout))), Triple(id, TldrName, Str(name))]
  }

  // RDF collections.

  /** `build_rdf_list`: an RDF collection of the items on fresh nodes
    * from `g` on; returns the next fresh node, the triples and the head. */
  function RdfList(g: nat, items: seq<Object>): (r: (nat, seq<Triple>, Node))
    ensures r.0 == g + |items|
    ensures |r.1| == 2 * |items|
    ensures |items| == 0 <==> r.2 == Vocab(RdfNil)
    ensures |items| > 0 ==> r.2 == Blank(g)
    decreases |items|
  {
    if |items| == 0 then (g, [], Vocab(RdfNil))
    else
      var rest := RdfList(g + 1, items[1..]);
      (rest.0, [Triple(Blank(g), RdfFirst, items[0]), Triple(Blank(g), RdfRest, Id(rest.2))] + rest.1, Blank(g))
  }

  /** A collection only speaks about its own fresh nodes, and only with
    * `rdf:first` and `rdf:rest`. */
  lemma {:induction false} RdfListShape(g: nat, items: seq<Object>)
    ensures forall t :: t in RdfList(g, items).1 ==> t.subject.Blank? && g <= t.subject.blank < g + |items|
    ensures forall t :: t in RdfList(g, items).1 ==> t.property == RdfFirst || t.property == RdfRest
    decreases |items|
  {
    if |items| > 0 {
      RdfListShape(g + 1, items[1..]);
    }
  }

  /** The object of the first triple with the subject and predicate. */
  function Lookup(ts: seq<Triple>, s: Node, p: Term): (r: Option<Object>)
    ensures r.Some? ==> Triple(s, p, r.value) in ts
    ensures r.None? ==> forall t :: t in ts ==> t.subject != s || t.property != p
  {
    if |ts| == 0 then None
    else if ts[0].subject == s && ts[0].property == p then Some(ts[0].obj)
    else Lookup(ts[1..], s, p)
  }

  /** The items of the collection at `head`, following `rdf:rest` at most
    * `fuel` times. */
  function ReadRdfList(ts: seq<Triple>, head: Node, fuel: nat): Option<seq<Object>>
    decreases fuel
  {
    if head == Vocab(RdfNil) then Some([])
    else if fuel == 0 then None
    else
      match Lookup(ts, head, RdfFirst)
      case None => None
      case Some(item) =>
        match Lookup(ts, head, RdfRest)
        case Some(Id(next)) =>
          (match ReadRdfList(ts, next, fuel - 1)
           case Some(items) => Some([item] + items)
           case None => None)
        case _ => None
  }

  /** Lookup in `pre + ts + post` finds a collection node's triples when
    * neither side has triples about the collection's nodes. */
  lemma {:induction false} LookupIn(pre: seq<Triple>, ts: seq<Triple>, post: seq<Triple>, s: Node, p: Term, o: Object)
    requires forall t :: t in pre ==> t.subject != s
    requires Triple(s, p, o) in ts
    requires forall t :: t in ts && t.subject == s && t.property == p ==> t.obj == o
    ensures Lookup(pre + ts + post, s, p) == Some(o)
    decreases |pre| + |ts|
  {
    if |pre| > 0 {
      assert (pre + ts + post)[1..] == pre[1..] + ts + post;
      LookupIn(pre[1..], ts, post, s, p, o);
    } else if ts[0].subject == s && ts[0].property == p {
      assert ts[0] in ts;
      assert (pre + ts + post)[0] == ts[0];
    } else {
      assert pre + ts + post == [ts[0]] + (ts[1..] + post);
      assert (pre + ts + post)[1..] == [] + ts[1..] + post;
      var i :| 0 <= i < |ts| && ts[i] == Triple(s, p, o);
      assert i > 0 && ts[1..][i - 1] == ts[i];
      LookupIn([], ts[1..], post, s, p, o);
    }
  }

  /** One step of reading a collection. */
  lemma ReadStep(ts: seq<Triple>, head: Node, item: Object, next: Node, fuel: nat, items: seq<Object>)
    requires head != Vocab(RdfNil)
    requires Lookup(ts, head, RdfFirst) == Some(item) && Lookup(ts, head, RdfRest) == Some(Id(next))
    requires ReadRdfList(ts, next, fuel) == Some(items)
    ensures ReadRdfList(ts, head, fuel + 1) == Some([item] + items)
  {
  }

  /** The first node of a collection, wherever it sits among triples about
    * other nodes, has the first item and the rest of the collection. */
  lemma {:induction false} ListHeadLookups(pre: seq<Triple>, g: nat, items: seq<Object>, post: seq<Triple>)
    requires |items| > 0
    requires forall t :: t in pre ==> !(t.subject.Blank? && g <= t.subject.blank)
    ensures Lookup(pre + RdfList(g, items).1 + post, Blank(g), RdfFirst) == Some(items[0])
    ensures Lookup(pre + RdfList(g, items).1 + post, Blank(g), RdfRest) == Some(Id(RdfList(g + 1, items[1..]).2))
  {
    var rest := RdfList(g + 1, items[1..]);
    var ts := RdfList(g, items).1;
    var first := [Triple(Blank(g), RdfFirst, items[0]), Triple(Blank(g), RdfRest, Id(rest.2))];
    assert ts == first + rest.1;
    RdfListShape(g + 1, items[1..]);
    assert forall t :: t in ts && t.subject == Blank(g) ==> t in first;
    LookupIn(pre, ts, post, Blank(g), RdfFirst, items[0]);
    LookupIn(pre, ts, post, Blank(g), RdfRest, Id(rest.2));
  }

  /** An RDF collection reads back as its items, wherever it sits among
    * triples about other nodes. */
  lemma {:induction false} RdfListReadsBack(pre: seq<Triple>, g: nat, items: seq<Object>, post: seq<Triple>)
    requires forall t :: t in pre ==> !(t.subject.Blank? && g <= t.subject.blank)
    ensures ReadRdfList(pre + RdfList(g, items).1 + post, RdfList(g, items).2, |items|) == Some(items)
    decreases |items|, 1
  {
    if |items| > 0 {
      var rest := RdfList(g + 1, items[1..]);
      var whole := pre + RdfList(g, items).1 + post;
      ListHeadLookups(pre, g, items, post);
      RestReadsBack(pre, g, items, post);
      ReadStep(whole, Blank(g), items[0], rest.2, |items| - 1, items[1..]);
      assert [items[0]] + items[1..] == items;
    }
  }

  /** The rest of a nonempty collection reads back as the other items. */
  lemma {:induction false} RestReadsBack(pre: seq<Triple>, g: nat, items: seq<Object>, post: seq<Triple>)
    requires |items| > 0
    requires forall t :: t in pre ==> !(t.subject.Blank? && g <= t.subject.blank)
    ensures ReadRdfList(pre + RdfList(g, items).1 + post, RdfList(g + 1, items[1..]).2, |items| - 1) == Some(items[1..])
    decreases |items|, 0
  {
    var rest := RdfList(g + 1, items[1..]);
    var first := [Triple(Blank(g), RdfFirst, items[0]), Triple(Blank(g), RdfRest, Id(rest.2))];
    ListUnfold(g, items);
    FreshAfter(pre, first, g);
    Regroup(pre, first, rest.1, post);
    RdfListReadsBack(pre + first, g + 1, items[1..], post);
  }

  /** A nonempty collection is its first node's two triples, then the
    * collection of the other items. */
  lemma ListUnfold(g: nat, items: seq<Object>)
    requires |items| > 0
    ensures RdfList(g, items).1
      == [Triple(Blank(g), RdfFirst, items[0]), Triple(Blank(g), RdfRest, Id(RdfList(g + 1, items[1..]).2))]
         + RdfList(g + 1, items[1..]).1
  {
  }

  /** Triples about nodes before `g + 1` say nothing about the nodes from
    * `g + 1` on. */
  lemma FreshAfter(pre: seq<Triple>, first: seq<Triple>, g: nat)
    requires forall t :: t in pre ==> !(t.subject.Blank? && g <= t.subject.blank)
    requires forall t :: t in first ==> t.subject == Blank(g)
    ensures forall t :: t in pre + first ==> !(t.subject.Blank? && g + 1 <= t.subject.blank)
  {
  }

  lemma Regroup<T>(a: seq<T>, b: seq<T>, c: seq<T>, d: seq<T>)
    ensures a + (b + c) + d == (a + b) + c + d
  {
  }

  // Booleans.

  /** `bool::to_string`. */
  function BoolText(b: bool): string {
    if b then "true" else "false"
  }

  /** Parsing a boolean literal, the inverse of `BoolText`. */
  function ParseBool(s: string): (r: Option<bool>)
    ensures r.Some? <==> s == "true" || s == "false"
  {
    if s == "true" then Some(true) else if s == "false" then Some(false) else None
  }

  lemma BoolTextRoundTrip(b: bool)
    ensures ParseBool(BoolText(b)) == Some(b)
  {
  }

  /** `LexBoolean::process`: a layout aliasing the boolean layout, or, with
    * a default, derived from it with that default.  A `const` is ignored. */
  function ProcessBoolean(b: LexBoolean, id: Node, name: string): (ts: seq<Triple>)
    ensures |ts| >= 3 && ts[..2] == Header(id, name)
    ensures ts[2] == Triple(id, if b.default.Some? then TldrDerivedFrom else TldrAlias, Id(Vocab(PrimitiveLayout(CoreVocab.Boolean))))
  {
    var boolean := Id(Vocab(PrimitiveLayout(CoreVocab.Boolean)));
    match b.default
    case Some(d) =>
      Header(id, name) + [Triple(id, TldrDerivedFrom, boolean), Triple(id, TldrDefaultValue, Typed(BoolText(d), XsdBoolean))]
    case None => Header(id, name) + [Triple(id, TldrAlias, boolean)]
  }

  /** A boolean is an alias of the boolean layout exactly when it has no
    * default, and otherwise derived from it with a default that parses
    * back as the given one. */
  lemma BooleanLookups(b: LexBoolean, id: Node, name: string)
    ensures var ts := ProcessBoolean(b, id, name);
      (Lookup(ts, id, TldrAlias).Some? <==> b.default.None?)
      && (Lookup(ts, id, TldrDerivedFrom).Some? <==> b.default.Some?)
      && (b.default.None? ==> Lookup(ts, id, TldrAlias) == Some(Id(Vocab(PrimitiveLayout(CoreVocab.Boolean)))))
  {
  }

  lemma BooleanDefault(b: LexBoolean, id: Node, name: string)
    requires b.default.Some?
    ensures var ts := ProcessBoolean(b, id, name);
      Lookup(ts, id, TldrDerivedFrom) == Some(Id(Vocab(PrimitiveLayout(CoreVocab.Boolean))))
      && Lookup(ts, id, TldrDefaultValue).Some? && Lookup(ts, id, TldrDefaultValue).value.Typed?
      && Lookup(ts, id, TldrDefaultValue).value.ty == XsdBoolean
      && ParseBool(Lookup(ts, id, TldrDefaultValue).value.value) == b.default
  {
    var ts := ProcessBoolean(b, id, name);
    var d := b.default.value;
    assert ts[3] == Triple(id, TldrDefaultValue, Typed(BoolText(d), XsdBoolean));
    LookupAt(ts, id, TldrDerivedFrom, 2);
    LookupAt(ts, id, TldrDefaultValue, 3);
    BoolTextRoundTrip(d);
  }

  /** Lookup finds the first triple with the subject and predicate. */
  lemma {:induction false} LookupAt(ts: seq<Triple>, s: Node, p: Term, i: nat)
    requires i < |ts| && ts[i].subject == s && ts[i].property == p
    requires forall j :: 0 <= j < i ==> ts[j].property != p
    ensures Lookup(ts, s, p) == Some(ts[i].obj)
    decreases i
  {
    if i > 0 {
      LookupAt(ts[1..], s, p, i - 1);
    }
  }

  // Restrictions.

  /** The properties a restriction node may carry. */
  predicate IsBound(t: Term) {
    t == TldrInclusiveMinimum || t == TldrInclusiveMaximum
    || t == TldrMinLength || t == TldrMaxLength || t == TldrMinGrapheme || t == TldrMaxGrapheme
  }

  /** One restriction node per bound, on fresh nodes from `g` on: each is a
    * layout restriction with its bound.  Returns the triples and the
    * nodes. */
  function RestrictionNodes(g: nat, cs: seq<(Term, Object)>): (r: (seq<Triple>, seq<Object>))
    requires forall i :: 0 <= i < |cs| ==> IsBound(cs[i].0)
    ensures |r.0| == 2 * |cs| && |r.1| == |cs|
    ensures forall i :: 0 <= i < |cs| ==> r.1[i] == Id(Blank(g + i))
    decreases |cs|
  {
    if |cs| == 0 then ([], [])
    else
      var rest := RestrictionNodes(g + 1, cs[1..]);
      var c := Blank(g);
      var head := [Declaration(g), Triple(c, cs[0].0, cs[0].1)];
      (head + rest.0, [Id(c)] + rest.1)
  }

  /** The restriction nodes only speak about their own fresh nodes, with
    * `rdf:type` or a bound, and every one of them is declared a layout
    * restriction. */
  lemma RestrictionNodesShape(g: nat, cs: seq<(Term, Object)>)
    requires forall i :: 0 <= i < |cs| ==> IsBound(cs[i].0)
    ensures forall t :: t in RestrictionNodes(g, cs).0 ==> t.subject.Blank? && g <= t.subject.blank < g + |cs|
    ensures forall t :: t in RestrictionNodes(g, cs).0 ==> t.property == RdfType || IsBound(t.property)
    ensures forall n :: g <= n < g + |cs| ==> Declaration(n) in RestrictionNodes(g, cs).0
  {
    NodesSubjects(g, cs);
    NodesProperties(g, cs);
    NodesDeclared(g, cs);
  }

  lemma {:induction false} NodesSubjects(g: nat, cs: seq<(Term, Object)>)
    requires forall i :: 0 <= i < |cs| ==> IsBound(cs[i].0)
    ensures forall t :: t in RestrictionNodes(g, cs).0 ==> t.subject.Blank? && g <= t.subject.blank < g + |cs|
    decreases |cs|
  {
    if |cs| > 0 {
      NodesSubjects(g + 1, cs[1..]);
      var head := [Declaration(g), Triple(Blank(g), cs[0].0, cs[0].1)];
      assert RestrictionNodes(g, cs).0 == head + RestrictionNodes(g + 1, cs[1..]).0;
    }
  }

  lemma {:induction false} NodesProperties(g: nat, cs: seq<(Term, Object)>)
    requires forall i :: 0 <= i < |cs| ==> IsBound(cs[i].0)
    ensures forall t :: t in RestrictionNodes(g, cs).0 ==> t.property == RdfType || IsBound(t.property)
    decreases |cs|
  {
    if |cs| > 0 {
      NodesProperties(g + 1, cs[1..]);
      var head := [Declaration(g), Triple(Blank(g), cs[0].0, cs[0].1)];
      assert RestrictionNodes(g, cs).0 == head + RestrictionNodes(g + 1, cs[1..]).0;
    }
  }

  lemma {:induction false} NodesDeclared(g: nat, cs: seq<(Term, Object)>)
    requires forall i :: 0 <= i < |cs| ==> IsBound(cs[i].0)
    ensures forall n :: g <= n < g + |cs| ==> Declaration(n) in RestrictionNodes(g, cs).0
    decreases |cs|
  {
    if |cs| > 0 {
      NodesDeclared(g + 1, cs[1..]);
      var head := [Declaration(g), Triple(Blank(g), cs[0].0, cs[0].1)];
      assert RestrictionNodes(g, cs).0 == head + RestrictionNodes(g + 1, cs[1..]).0;
    }
  }

  /** The triple that declares the `n`-th generated node a restriction. */
  function Declaration(n: nat): Triple {
    Triple(Blank(n), RdfType, Id(Vocab(TldrLayoutRestriction)))
  }

  /** A triple that declares a restriction node. */
  predicate Declares(t: Triple) {
    t.property == RdfType && t.obj == Id(Vocab(TldrLayoutRestriction))
  }

  /** The number of restriction nodes declared. */
  function RestrictionCount(ts: seq<Triple>): nat {
    if |ts| == 0 then 0
    else (if Declares(ts[0]) then 1 else 0) + RestrictionCount(ts[1..])
  }

  lemma {:induction false} RestrictionCountAppend(a: seq<Triple>, b: seq<Triple>)
    ensures RestrictionCount(a + b) == RestrictionCount(a) + RestrictionCount(b)
    decreases |a|
  {
    if |a| > 0 {
      assert (a + b)[0] == a[0];
      assert (a + b)[1..] == a[1..] + b;
      RestrictionCountAppend(a[1..], b);
    } else {
      assert a + b == b;
    }
  }

  lemma {:induction false} NoDeclarations(ts: seq<Triple>)
    requires forall t :: t in ts ==> !Declares(t)
    ensures RestrictionCount(ts) == 0
    decreases |ts|
  {
    if |ts| > 0 {
      assert ts[0] in ts;
      assert forall t :: t in ts[1..] ==> t in ts;
      NoDeclarations(ts[1..]);
    }
  }

  /** The restriction nodes declare one node per bound. */
  lemma {:induction false} RestrictionNodesCount(g: nat, cs: seq<(Term, Object)>)
    requires forall i :: 0 <= i < |cs| ==> IsBound(cs[i].0)
    ensures RestrictionCount(RestrictionNodes(g, cs).0) == |cs|
    decreases |cs|
  {
    if |cs| > 0 {
      var rest := RestrictionNodes(g + 1, cs[1..]);
      var c := Blank(g);
      var head := [Declaration(g), Triple(c, cs[0].0, cs[0].1)];
      assert RestrictionNodes(g, cs).0 == head + rest.0;
      RestrictionCountAppend(head, rest.0);
      assert head[1..] == [head[1]] && !Declares(head[1]);
      assert RestrictionCount(head[1..]) == 0 by { NoDeclarations(head[1..]); }
      RestrictionNodesCount(g + 1, cs[1..]);
    }
  }

  /** Counting around a middle part that holds every declaration. */
  lemma {:induction false} CountMiddle(front: seq<Triple>, mid: seq<Triple>, tail: seq<Triple>)
    requires forall t :: t in front ==> !Declares(t)
    requires forall t :: t in tail ==> !Declares(t)
    ensures RestrictionCount(front + mid + tail) == RestrictionCount(mid)
  {
    NoDeclarations(front);
    NoDeclarations(tail);
    RestrictionCountAppend(front, mid);
    RestrictionCountAppend(front + mid, tail);
  }

  /** The restriction list of a derived layout: the restriction nodes, then
    * the collection of them, then the `withRestrictions` link.  Returns the
    * next fresh node and the triples. */
  function RestrictionList(id: Node, g: nat, cs: seq<(Term, Object)>): (r: (nat, seq<Triple>, seq<Triple>))
    requires forall i :: 0 <= i < |cs| ==> IsBound(cs[i].0)
    ensures r.0 == g + 2 * |cs|
    ensures r.1 == RestrictionNodes(g, cs).0
    ensures |r.2| == 2 * |cs| + 1
    ensures r.2[2 * |cs|] == Triple(id, TldrWithRestrictions, Id(if |cs| == 0 then Vocab(RdfNil) else Blank(g + |cs|)))
    ensures r.2 == RdfList(g + |cs|, RestrictionNodes(g, cs).1).1 + [r.2[2 * |cs|]]
  {
    var nodes := RestrictionNodes(g, cs);
    var list := RdfList(g + |cs|, nodes.1);
    var link := [Triple(id, TldrWithRestrictions, Id(list.2))];
    (list.0, nodes.0, list.1 + link)
  }

  /** The list and its link only use `rdf:first`, `rdf:rest` and
    * `withRestrictions`, and so declare nothing. */
  lemma ListTriples(id: Node, g: nat, cs: seq<(Term, Object)>)
    requires forall i :: 0 <= i < |cs| ==> IsBound(cs[i].0)
    ensures forall t :: t in RestrictionList(id, g, cs).2 ==> ListProperty(t)
  {
    var r := RestrictionList(id, g, cs);
    ListProperties(g + |cs|, RestrictionNodes(g, cs).1, [r.2[2 * |cs|]]);
  }

  /** The properties of the triples that make up a restriction list. */
  predicate ListProperty(t: Triple) {
    t.property == RdfFirst || t.property == RdfRest || t.property == TldrWithRestrictions
  }

  lemma ListProperties(g: nat, items: seq<Object>, link: seq<Triple>)
    requires forall t :: t in link ==> t.property == TldrWithRestrictions
    ensures forall t :: t in RdfList(g, items).1 + link ==> ListProperty(t)
  {
    RdfListShape(g, items);
  }

  /** The collection under `withRestrictions` reads back as the restriction
    * nodes, in order. */
  lemma {:induction false} RestrictionListReads(id: Node, g: nat, cs: seq<(Term, Object)>)
    requires forall i :: 0 <= i < |cs| ==> IsBound(cs[i].0)
    requires |cs| > 0
    ensures ReadRdfList(RestrictionList(id, g, cs).2, Blank(g + |cs|), |cs|) == Some(RestrictionNodes(g, cs).1)
  {
    var nodes := RestrictionNodes(g, cs).1;
    var h := g + |cs|;
    var link := Triple(id, TldrWithRestrictions, Id(Blank(h)));
    assert RdfList(h, nodes).2 == Blank(h);
    assert RestrictionList(id, g, cs).2 == RdfList(h, nodes).1 + [link];
    ListBeforeLink(h, nodes, link, |cs|);
  }

  /** A nonempty collection followed by one more triple reads back. */
  lemma {:induction false} ListBeforeLink(g: nat, items: seq<Object>, link: Triple, n: nat)
    requires n == |items| > 0
    ensures ReadRdfList(RdfList(g, items).1 + [link], Blank(g), n) == Some(items)
  {
    RdfListReadsBack([], g, items, [link]);
    assert [] + RdfList(g, items).1 + [link] == RdfList(g, items).1 + [link];
  }

  // Integers.

  /** The integer's bounds as restrictions, minimum first, each typed by
    * the natural type of the primitive. */
  function IntegerConstraints(min: Option<int>, max: Option<int>, p: Primitive): (cs: seq<(Term, Object)>)
    ensures |cs| == (if min.Some? then 1 else 0) + (if max.Some? then 1 else 0)
    ensures forall i :: 0 <= i < |cs| ==> IsBound(cs[i].0)
    ensures min.Some? ==> cs[0] == (TldrInclusiveMinimum, Typed(Values.IntToString(min.value), NaturalType(p)))
    ensures max.Some? ==> cs[|cs| - 1] == (TldrInclusiveMaximum, Typed(Values.IntToString(max.value), NaturalType(p)))
  {
    (if min.Some? then [(TldrInclusiveMinimum, Typed(Values.IntToString(min.value), NaturalType(p)))] else [])
    + (if max.Some? then [(TldrInclusiveMaximum, Typed(Values.IntToString(max.value), NaturalType(p)))] else [])
  }

  /** `LexInteger::process`, given the primitive the integer is stored in
    * and the bounds that primitive does not imply: an alias of the
    * primitive when there is no default and no bound, and otherwise derived
    * from it with the default and a list of one restriction per bound.
    * `const` and `enum` are ignored.  Returns the next fresh node and the
    * triples. */
  function ProcessInteger(i: LexInteger, id: Node, name: string, g: nat, p: Primitive, min: Option<int>, max: Option<int>): (r: (nat, seq<Triple>))
    ensures |r.1| >= 3 && r.1[..2] == Header(id, name)
    ensures r.1[2] == IntegerFront(i, id, name, p, i.default.Some? || min.Some? || max.Some?)[2]
    ensures r.0 == g + 2 * |IntegerConstraints(min, max, p)|
  {
    var derived := i.default.Some? || min.Some? || max.Some?;
    var front := IntegerFront(i, id, name, p, derived);
    var cs := IntegerConstraints(min, max, p);
    if |cs| == 0 then (g, front)
    else
      var list := RestrictionList(id, g, cs);
      FrontKept(front, list.1, list.2);
      (list.0, front + list.1 + list.2)
  }

  lemma FrontKept<T>(a: seq<T>, b: seq<T>, c: seq<T>)
    requires |a| >= 3
    ensures (a + b + c)[..2] == a[..2] && (a + b + c)[2] == a[2]
  {
  }

  /** The triples of an integer before its restriction nodes: the header,
    * then the derivation from the primitive with the default, or the
    * alias of the primitive. */
  function IntegerFront(i: LexInteger, id: Node, name: string, p: Primitive, derived: bool): (ts: seq<Triple>)
    ensures |ts| >= 3 && ts[..2] == Header(id, name)
    ensures ts[2] == Triple(id, if derived then TldrDerivedFrom else TldrAlias, Id(Vocab(PrimitiveLayout(p))))
    ensures derived && i.default.Some? ==>
      |ts| == 4 && ts[3] == Triple(id, TldrDefaultValue, Typed(Values.IntToString(i.default.value), NaturalType(p)))
    ensures !(derived && i.default.Some?) ==> |ts| == 3
    ensures forall t :: t in ts ==> !Declares(t)
  {
    var layout := Id(Vocab(PrimitiveLayout(p)));
    if !derived then Header(id, name) + [Triple(id, TldrAlias, layout)]
    else
      var default := if i.default.Some? then [Triple(id, TldrDefaultValue, Typed(Values.IntToString(i.default.value), NaturalType(p)))] else [];
      Header(id, name) + [Triple(id, TldrDerivedFrom, layout)] + default
  }

  /** An integer is derived exactly when it has a default or a bound, and
    * then each bound adds exactly one restriction node, listed under
    * `withRestrictions`. */
  lemma {:induction false} IntegerRestrictions(i: LexInteger, id: Node, name: string, g: nat, p: Primitive, min: Option<int>, max: Option<int>)
    ensures var r := ProcessInteger(i, id, name, g, p, min, max);
      RestrictionCount(r.1) == |IntegerConstraints(min, max, p)|
      && (|IntegerConstraints(min, max, p)| > 0 ==>
            Triple(id, TldrWithRestrictions, Id(Blank(g + |IntegerConstraints(min, max, p)|))) in r.1)
  {
    var r := ProcessInteger(i, id, name, g, p, min, max);
    var cs := IntegerConstraints(min, max, p);
    var front := IntegerFront(i, id, name, p, i.default.Some? || min.Some? || max.Some?);
    if |cs| == 0 {
      NoDeclarations(front);
    } else {
      var list := RestrictionList(id, g, cs);
      assert r.1 == front + list.1 + list.2;
      ListDeclaresNothing(id, g, cs);
      CountMiddle(front, list.1, list.2);
      RestrictionNodesCount(g, cs);
      assert list.2[2 * |cs|] in r.1;
    }
  }

  // Strings.

  /** The string's length and grapheme bounds as restrictions, in the order
    * the source writes them, each a non-negative integer. */
  function StringConstraints(s: LexString): (cs: seq<(Term, Object)>)
    ensures |cs| == (if s.minLength.Some? then 1 else 0) + (if s.maxLength.Some? then 1 else 0)
                   + (if s.minGrapheme.Some? then 1 else 0) + (if s.maxGrapheme.Some? then 1 else 0)
    ensures forall i :: 0 <= i < |cs| ==> IsBound(cs[i].0) && cs[i].1.Typed? && cs[i].1.ty == XsdNonNegativeInteger
  {
    (if s.minLength.Some? then [(TldrMinLength, Typed(Values.NatToString(s.minLength.value), XsdNonNegativeInteger))] else [])
    + (if s.maxLength.Some? then [(TldrMaxLength, Typed(Values.NatToString(s.maxLength.value), XsdNonNegativeInteger))] else [])
    + (if s.minGrapheme.Some? then [(TldrMinGrapheme, Typed(Values.NatToString(s.minGrapheme.value), XsdNonNegativeInteger))] else [])
    + (if s.maxGrapheme.Some? then [(TldrMaxGrapheme, Typed(Values.NatToString(s.maxGrapheme.value), XsdNonNegativeInteger))] else [])
  }

  /** The triples before the alias or derivation of a string: the header
    * and the description as a comment. */
  function StringFront(s: LexString, id: Node, name: string): (ts: seq<Triple>)
    ensures |ts| >= 2 && ts[..2] == Header(id, name)
    ensures forall t :: t in ts ==> !Declares(t) && t.property != TldrAlias
  {
    Header(id, name) + (if s.description.Some? then [Triple(id, RdfsComment, Str(s.description.value))] else [])
  }

  /** `LexString::process`: the description as a comment, the restriction
    * nodes of the bounds, then an alias of the string layout when there is
    * no bound and no default, and otherwise a layout derived from it with
    * the default and the list of restrictions.  `const`, `enum` and
    * `format` are ignored.  Returns the next fresh node and the triples. */
  function ProcessString(s: LexString, id: Node, name: string, g: nat): (r: (nat, seq<Triple>))
    ensures |r.1| >= 2 && r.1[..2] == Header(id, name)
    ensures r.0 == g + 2 * |StringConstraints(s)|
  {
    var front := StringFront(s, id, name);
    var tail := StringTail(s, id, g);
    HeadKept(front, tail.1);
    (tail.0, front + tail.1)
  }

  /** The triples of a string after its front: the alias, or the
    * restriction nodes, the derivation with the default and the list. */
  function StringTail(s: LexString, id: Node, g: nat): (r: (nat, seq<Triple>))
    ensures r.0 == g + 2 * |StringConstraints(s)|
  {
    var cs := StringConstraints(s);
    var str := Id(Vocab(PrimitiveLayout(CoreVocab.String)));
    if |cs| == 0 && s.default.None? then (g, [Triple(id, TldrAlias, str)])
    else
      var derived := [Triple(id, TldrDerivedFrom, str)] + StringDefault(s, id);
      if |cs| == 0 then (g, derived)
      else
        var list := RestrictionList(id, g, cs);
        (list.0, list.1 + derived + list.2)
  }

  lemma HeadKept<T>(a: seq<T>, b: seq<T>)
    requires |a| >= 2
    ensures (a + b)[..2] == a[..2]
  {
  }

  /** The default of a string, as a plain literal. */
  function StringDefault(s: LexString, id: Node): (ts: seq<Triple>)
    ensures forall t :: t in ts ==> !Declares(t) && t.property == TldrDefaultValue
  {
    if s.default.Some? then [Triple(id, TldrDefaultValue, Str(s.default.value))] else []
  }

  /** A string is an alias of the string layout exactly when it has no
    * bound and no default. */
  lemma {:induction false} StringAlias(s: LexString, id: Node, name: string, g: nat)
    ensures Triple(id, TldrAlias, Id(Vocab(PrimitiveLayout(CoreVocab.String)))) in ProcessString(s, id, name, g).1
            <==> |StringConstraints(s)| == 0 && s.default.None?
  {
    var alias := Triple(id, TldrAlias, Id(Vocab(PrimitiveLayout(CoreVocab.String))));
    if |StringConstraints(s)| == 0 && s.default.None? {
      assert ProcessString(s, id, name, g).1 == StringFront(s, id, name) + [alias];
    } else {
      DerivedStringIsNoAlias(s, id, name, g);
    }
  }

  lemma {:induction false} DerivedStringIsNoAlias(s: LexString, id: Node, name: string, g: nat)
    requires |StringConstraints(s)| > 0 || s.default.Some?
    ensures Triple(id, TldrAlias, Id(Vocab(PrimitiveLayout(CoreVocab.String)))) !in ProcessString(s, id, name, g).1
  {
    var alias := Triple(id, TldrAlias, Id(Vocab(PrimitiveLayout(CoreVocab.String))));
    var derived := [Triple(id, TldrDerivedFrom, Id(Vocab(PrimitiveLayout(CoreVocab.String))))] + StringDefault(s, id);
    var ts := StringTriples(s, id, name, g);
    assert alias !in ts by {
      if |StringConstraints(s)| == 0 {
        assert ts == StringFront(s, id, name) + derived;
      } else {
        RestrictedStringIsNoAlias(s, id, name, g);
      }
    }
  }

  /** The triples of a processed string. */
  function StringTriples(s: LexString, id: Node, name: string, g: nat): seq<Triple> {
    ProcessString(s, id, name, g).1
  }

  lemma {:induction false} RestrictedStringIsNoAlias(s: LexString, id: Node, name: string, g: nat)
    requires |StringConstraints(s)| > 0
    ensures Triple(id, TldrAlias, Id(Vocab(PrimitiveLayout(CoreVocab.String)))) !in StringTriples(s, id, name, g)
  {
    var cs := StringConstraints(s);
    var alias := Triple(id, TldrAlias, Id(Vocab(PrimitiveLayout(CoreVocab.String))));
    var front := StringFront(s, id, name);
    var derived := [Triple(id, TldrDerivedFrom, Id(Vocab(PrimitiveLayout(CoreVocab.String))))] + StringDefault(s, id);
    var list := RestrictionList(id, g, cs);
    NodesAreNoAlias(g, cs, alias);
    ListTriples(id, g, cs);
    assert StringTriples(s, id, name, g) == front + (list.1 + derived + list.2);
    NotInAny(alias, front, list.1, derived, list.2);
  }

  lemma NodesAreNoAlias(g: nat, cs: seq<(Term, Object)>, t: Triple)
    requires forall i :: 0 <= i < |cs| ==> IsBound(cs[i].0)
    requires t.property == TldrAlias
    ensures t !in RestrictionNodes(g, cs).0
  {
    NodesProperties(g, cs);
  }

  lemma NotInAny<T>(x: T, a: seq<T>, b: seq<T>, c: seq<T>, d: seq<T>)
    requires x !in a && x !in b && x !in c && x !in d
    ensures x !in a + (b + c + d)
  {
  }

  /** Each present length or grapheme bound adds exactly one restriction
    * node, listed under `withRestrictions`. */
  lemma StringRestrictions(s: LexString, id: Node, name: string, g: nat)
    ensures RestrictionCount(ProcessString(s, id, name, g).1) == |StringConstraints(s)|
    ensures |StringConstraints(s)| > 0 ==>
      Triple(id, TldrWithRestrictions, Id(Blank(g + |StringConstraints(s)|))) in ProcessString(s, id, name, g).1
  {
    if |StringConstraints(s)| == 0 {
      NoDeclarations(ProcessString(s, id, name, g).1);
    } else {
      RestrictedStringCount(s, id, name, g);
    }
  }

  lemma RestrictedStringCount(s: LexString, id: Node, name: string, g: nat)
    requires |StringConstraints(s)| > 0
    ensures RestrictionCount(ProcessString(s, id, name, g).1) == |StringConstraints(s)|
    ensures Triple(id, TldrWithRestrictions, Id(Blank(g + |StringConstraints(s)|))) in ProcessString(s, id, name, g).1
  {
    var cs := StringConstraints(s);
    var r := ProcessString(s, id, name, g);
    var front := StringFront(s, id, name);
    var derived := [Triple(id, TldrDerivedFrom, Id(Vocab(PrimitiveLayout(CoreVocab.String))))] + StringDefault(s, id);
    var list := RestrictionList(id, g, cs);
    assert r.1 == front + (list.1 + derived + list.2);
    ListDeclaresNothing(id, g, cs);
    RestrictionCountAppend(front, list.1 + derived + list.2);
    RestrictionCountAppend(list.1 + derived, list.2);
    RestrictionCountAppend(list.1, derived);
    NoDeclarations(front);
    NoDeclarations(derived);
    NoDeclarations(list.2);
    RestrictionNodesCount(g, cs);
    assert list.2[2 * |cs|] in r.1;
  }

  lemma ListDeclaresNothing(id: Node, g: nat, cs: seq<(Term, Object)>)
    requires forall i :: 0 <= i < |cs| ==> IsBound(cs[i].0)
    ensures forall t :: t in RestrictionList(id, g, cs).2 ==> !Declares(t)
  {
    ListTriples(id, g, cs);
  }

  // Unknown types.

  /** `LexUnknown::process`: only the header. */
  function ProcessUnknown(id: Node, name: string): seq<Triple> {
    Header(id, name)
  }

  /** Every processed primitive starts by declaring a layout with its
    * name. */
  lemma {:induction false} EveryPrimitiveIsNamedLayout(b: LexBoolean, i: LexInteger, s: LexString, id: Node, name: string, g: nat,
                                    p: Primitive, min: Option<int>, max: Option<int>)
    ensures var h := [Triple(id, RdfType, Id(Vocab(TldrLayout))), Triple(id, TldrName, Str(name))];
      ProcessBoolean(b, id, name)[..2] == h && ProcessInteger(i, id, name, g, p, min, max).1[..2] == h
      && ProcessString(s, id, name, g).1[..2] == h && ProcessUnknown(id, name) == h
  {
  }
}
