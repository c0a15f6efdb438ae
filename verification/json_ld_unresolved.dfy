/**
 * The unresolved JSON-LD context data of the JSON-LD context generator
 * (`modules/json-ld-context/src/unresolved.rs`): compact-IRI prefixes and
 * how terms are resolved against them, the definitions collected for each
 * term, the default local context, and the parent/child relation between
 * local contexts.
 */
module JsonLdUnresolved {
  import opened Wrappers

  // Prefixes.

  /** `Prefixes`: prefix to IRI. */
  type Prefixes = map<string, string>

  /** `Prefixes::intersect_with`: the entries both maps hold with the same
    * value. */
  function IntersectWith(a: Prefixes, b: Prefixes): (r: Prefixes)
    ensures forall k :: k in r <==> k in a && k in b && a[k] == b[k]
    ensures forall k :: k in r ==> r[k] == a[k]
  {
    map k | k in a && k in b && a[k] == b[k] :: a[k]
  }

  /** Intersection is commutative, idempotent and only ever removes
    * entries. */
  lemma IntersectWithLaws(a: Prefixes, b: Prefixes)
    ensures IntersectWith(a, b) == IntersectWith(b, a)
    ensures IntersectWith(a, a) == a
    ensures IntersectWith(a, b).Keys <= a.Keys
  {
  }

  /** The position of the first `:`, as `split_once(':')` finds it. */
  function FirstColon(s: string): (r: Option<nat>)
    ensures r.Some? ==> r.value < |s| && s[r.value] == ':' && forall j :: 0 <= j < r.value ==> s[j] != ':'
    ensures r.None? ==> forall j :: 0 <= j < |s| ==> s[j] != ':'
  {
    if |s| == 0 then None
    else if s[0] == ':' then Some(0)
    else match FirstColon(s[1..])
      case Some(i) => Some(i + 1)
      case None => None
  }

  predicate StartsWith(s: string, prefix: string) {
    |prefix| <= |s| && s[..|prefix|] == prefix
  }

  /** A resolved identifier: a blank node identifier or an IRI. */
  datatype ResolvedId = BlankId(blankLabel: string) | IriId(iri: string)

  /** `Prefixes::resolve`: `_:label` is a blank node identifier and
    * `prefix:suffix` expands through the prefix map; a term with no colon,
    * with an unknown prefix, with a prefix starting `//`, or expanding to
    * something that is not an IRI is returned as the error.  Which strings
    * are blank node identifiers and which are IRIs is given. */
  function Resolve(prefixes: Prefixes, term: string, isBlankId: string -> bool, isIri: string -> bool): (r: Result<ResolvedId, string>)
    ensures r.Failure? ==> r.error == term
    ensures FirstColon(term).None? ==> r.Failure?
    ensures r.Success? && r.value.BlankId? ==> StartsWith(term, "_:") && r.value.blankLabel == term && isBlankId(term)
    ensures r.Success? && r.value.IriId? ==>
      var i := FirstColon(term).value;
      term[..i] in prefixes && r.value.iri == prefixes[term[..i]] + term[i + 1..] && isIri(r.value.iri)
  {
    match FirstColon(term)
    case None => Failure(term)
    case Some(i) =>
      var prefix := term[..i];
      var suffix := term[i + 1..];
      if prefix == "_" then
        if isBlankId(term) then Success(BlankId(term)) else Failure(term)
      else if StartsWith(prefix, "//") then Failure(term)
      else if prefix in prefixes then
        var iri := prefixes[prefix] + suffix;
        if isIri(iri) then Success(IriId(iri)) else Failure(term)
      else Failure(term)
  }

  /** The first colon of `p:s` is the one after `p` when `p` has none. */
  lemma {:induction false} FirstColonAfter(p: string, s: string)
    requires forall j :: 0 <= j < |p| ==> p[j] != ':'
    ensures FirstColon(p + ":" + s) == Some(|p|)
  {
    if |p| > 0 {
      assert (p + ":" + s)[1..] == p[1..] + ":" + s;
      FirstColonAfter(p[1..], s);
    }
  }

  /** `p:s` expands to the IRI of `p` followed by `s`, for every prefix `p`
    * that is known, has no colon, and is neither `_` nor starts with `//`;
    * an unknown prefix is an error. */
  lemma ResolveExpands(prefixes: Prefixes, p: string, s: string, isBlankId: string -> bool, isIri: string -> bool)
    requires forall j :: 0 <= j < |p| ==> p[j] != ':'
    requires p != "_" && !StartsWith(p, "//")
    ensures p in prefixes && isIri(prefixes[p] + s) ==>
      Resolve(prefixes, p + ":" + s, isBlankId, isIri) == Success(IriId(prefixes[p] + s))
    ensures p !in prefixes ==> Resolve(prefixes, p + ":" + s, isBlankId, isIri) == Failure(p + ":" + s)
  {
    FirstColonAfter(p, s);
    var t := p + ":" + s;
    assert t[..|p|] == p && t[|p| + 1..] == s;
  }

  /** `_:label` resolves to that blank node identifier when it is one, and
    * is an error otherwise. */
  lemma ResolveBlank(prefixes: Prefixes, name: string, isBlankId: string -> bool, isIri: string -> bool)
    ensures Resolve(prefixes, "_:" + name, isBlankId, isIri) ==
      if isBlankId("_:" + name) then Success(BlankId("_:" + name)) else Failure("_:" + name)
  {
    FirstColonAfter("_", name);
    var t := "_:" + name;
    assert "_" + ":" + name == t;
    assert t[..1] == "_";
  }

  // Term definitions.

  /** `json_ld::Nullable`: an explicit `null`, or a value. */
  datatype Nullable<T> = Null | NonNull(value: T)

  /** `TermDefinitions`: whether the term was removed (bound to `null`),
    * and the definitions added for it, in order. */
  datatype TermDefinitions<D> = TermDefinitions(removed: bool, added: seq<D>)

  /** `TermDefinitions::insert`: `null` marks the term removed and a
    * definition is appended. */
  function InsertDefinition<D>(t: TermDefinitions<D>, def: Nullable<D>): (r: TermDefinitions<D>)
    ensures def.Null? ==> r.removed && r.added == t.added
    ensures def.NonNull? ==> r.removed == t.removed && r.added == t.added + [def.value]
  {
    match def
    case Null => t.(removed := true)
    case NonNull(d) => t.(added := t.added + [d])
  }

  /** The definitions of a sequence, without the `null`s. */
  function Defined<D>(defs: seq<Nullable<D>>): seq<D> {
    if |defs| == 0 then []
    else (if defs[0].NonNull? then [defs[0].value] else []) + Defined(defs[1..])
  }

  /** Inserting definitions one after the other. */
  function InsertAll<D>(t: TermDefinitions<D>, defs: seq<Nullable<D>>): TermDefinitions<D>
    decreases |defs|
  {
    if |defs| == 0 then t else InsertAll(InsertDefinition(t, defs[0]), defs[1..])
  }

  /** After a sequence of insertions the term is removed exactly when it
    * was or one of them is `null`, and the definitions are those added
    * before followed by the non-`null` ones, in order. */
  lemma {:induction false} InsertAllMeaning<D>(t: TermDefinitions<D>, defs: seq<Nullable<D>>)
    ensures InsertAll(t, defs).removed <==> t.removed || exists i :: 0 <= i < |defs| && defs[i].Null?
    ensures InsertAll(t, defs).added == t.added + Defined(defs)
    decreases |defs|
  {
    if |defs| > 0 {
      var next := InsertDefinition(t, defs[0]);
      InsertAllMeaning(next, defs[1..]);
      if exists i :: 0 <= i < |defs[1..]| && defs[1..][i].Null? {
        var i :| 0 <= i < |defs[1..]| && defs[1..][i].Null?;
        assert defs[i + 1].Null?;
      }
      if exists i :: 0 <= i < |defs| && defs[i].Null? {
        var i :| 0 <= i < |defs| && defs[i].Null?;
        if i > 0 {
          assert defs[1..][i - 1].Null?;
        }
      }
      assert t.added + Defined(defs) == next.added + Defined(defs[1..]);
    }
  }

  /** `Bindings`: the definitions collected for each term. */
  type Bindings<D> = map<string, TermDefinitions<D>>

  /** `Bindings::insert`: the definition is inserted into the term's
    * definitions, which start empty and not removed. */
  function InsertBinding<D>(b: Bindings<D>, term: string, def: Nullable<D>): (r: Bindings<D>)
    ensures r.Keys == b.Keys + {term}
    ensures term !in b ==> r[term] == InsertDefinition(TermDefinitions(false, []), def)
    ensures term in b ==> r[term] == InsertDefinition(b[term], def)
    ensures forall k :: k in b && k != term ==> r[k] == b[k]
  {
    var current := if term in b then b[term] else TermDefinitions(false, []);
    b[term := InsertDefinition(current, def)]
  }

  // Local contexts.

  /** `LocalContext`, with its base, vocabulary, language and direction
    * entries abstracted: each is absent, `null`, or a value. */
  datatype LocalContext<B, V, L, Dir> = LocalContext(
    base: Option<Nullable<B>>,
    vocab: Option<Nullable<V>>,
    language: Option<Nullable<L>>,
    direction: Option<Nullable<Dir>>,
    propagate: bool,
    typeScoped: bool)

  /** `LocalContext::default`: no entry, propagated, and not type-scoped. */
  function DefaultLocalContext<B, V, L, Dir>(): LocalContext<B, V, L, Dir> {
    LocalContext(None, None, None, None, true, false)
  }

  /** A default local context sets no entry, propagates and is not
    * type-scoped. */
  lemma DefaultLocalContextIsEmpty<B, V, L, Dir>()
    ensures var c := DefaultLocalContext<B, V, L, Dir>();
      c.base.None? && c.vocab.None? && c.language.None? && c.direction.None?
    ensures var c := DefaultLocalContext<B, V, L, Dir>();
      c.propagate && !c.typeScoped
  {
  }

  /** Resolving an optional nullable entry. */
  function ResolveEntry<T, U>(e: Option<Nullable<T>>, f: T -> U): (r: Option<Nullable<U>>)
    ensures r.None? <==> e.None?
    ensures r == Some(Null) <==> e == Some(Null)
    ensures e.Some? && e.value.NonNull? ==> r == Some(NonNull(f(e.value.value)))
  {
    match e
    case None => None
    case Some(Null) => Some(Null)
    case Some(NonNull(t)) => Some(NonNull(f(t)))
  }

  /** `LocalContext::resolve`: the base and vocabulary are resolved, and
    * everything else, the propagation and type-scoping flags included,
    * is kept. */
  function ResolveLocalContext<B, V, L, Dir, RB, RV>(c: LocalContext<B, V, L, Dir>, base: B -> RB, vocab: V -> RV): (r: LocalContext<RB, RV, L, Dir>)
    ensures r.language == c.language && r.direction == c.direction
    ensures r.propagate == c.propagate && r.typeScoped == c.typeScoped
    ensures r.base.None? <==> c.base.None?
    ensures r.vocab.None? <==> c.vocab.None?
  {
    LocalContext(ResolveEntry(c.base, base), ResolveEntry(c.vocab, vocab), c.language, c.direction, c.propagate, c.typeScoped)
  }

  // Relations between local contexts.

  /** `LocalContextRelations`: the contexts a context is a direct parent or
    * child of, and those it is a parent or child of through a term. */
  datatype ContextRelations = ContextRelations(
    directChildren: set<nat>,
    directParents: set<nat>,
    children: map<string, set<nat>>,
    parents: map<string, set<nat>>)

  /** `Relations`: the relations of each local context. */
  type Relations = map<nat, ContextRelations>

  const NoRelations := ContextRelations({}, {}, map[], map[])

  function RelationsOf(m: Relations, r: nat): ContextRelations {
    if r in m then m[r] else NoRelations
  }

  function Children(m: Relations, parent: nat, term: string): set<nat> {
    var rel := RelationsOf(m, parent);
    if term in rel.children then rel.children[term] else {}
  }

  function Parents(m: Relations, child: nat, term: string): set<nat> {
    var rel := RelationsOf(m, child);
    if term in rel.parents then rel.parents[term] else {}
  }

  /** Every child recorded through a term has the parent recorded. */
  ghost predicate ChildrenHaveParents(m: Relations) {
    forall p, t, c :: c in Children(m, p, t) ==> p in Parents(m, c, t)
  }

  /** Every parent recorded through a term has the child recorded. */
  ghost predicate ParentsHaveChildren(m: Relations) {
    forall p, t, c :: p in Parents(m, c, t) ==> c in Children(m, p, t)
  }

  /** Direct parents and children record the same pairs. */
  ghost predicate DirectSymmetric(m: Relations) {
    forall p, c :: c in RelationsOf(m, p).directChildren <==> p in RelationsOf(m, c).directParents
  }

  /** Parents and children record the same pairs. */
  ghost predicate Symmetric(m: Relations) {
    ChildrenHaveParents(m) && ParentsHaveChildren(m) && DirectSymmetric(m)
  }

  /** Records `child` under `parent` through `term`, answering whether it
    * is new. */
  function AddChild(m: Relations, parent: nat, term: string, child: nat): (r: (Relations, bool))
    ensures r.1 <==> child !in Children(m, parent, term)
    ensures Children(r.0, parent, term) == Children(m, parent, term) + {child}
    ensures forall p: nat, t: string :: p != parent || t != term ==> Children(r.0, p, t) == Children(m, p, t)
    ensures forall c, t :: Parents(r.0, c, t) == Parents(m, c, t)
    ensures forall p :: RelationsOf(r.0, p).directChildren == RelationsOf(m, p).directChildren
    ensures forall p :: RelationsOf(r.0, p).directParents == RelationsOf(m, p).directParents
  {
    var rel := RelationsOf(m, parent);
    var set_ := Children(m, parent, term);
    (m[parent := rel.(children := rel.children[term := set_ + {child}])], child !in set_)
  }

  /** Records `parent` above `child` through `term`, answering whether it
    * is new. */
  function AddParent(m: Relations, child: nat, term: string, parent: nat): (r: (Relations, bool))
    ensures r.1 <==> parent !in Parents(m, child, term)
    ensures Parents(r.0, child, term) == Parents(m, child, term) + {parent}
    ensures forall c: nat, t: string :: c != child || t != term ==> Parents(r.0, c, t) == Parents(m, c, t)
    ensures forall p, t :: Children(r.0, p, t) == Children(m, p, t)
    ensures forall p :: RelationsOf(r.0, p).directChildren == RelationsOf(m, p).directChildren
    ensures forall p :: RelationsOf(r.0, p).directParents == RelationsOf(m, p).directParents
  {
    var rel := RelationsOf(m, child);
    var set_ := Parents(m, child, term);
    (m[child := rel.(parents := rel.parents[term := set_ + {parent}])], parent !in set_)
  }

  /** Records a direct parent/child pair, answering whether the child is
    * new. */
  function AddDirect(m: Relations, parent: nat, child: nat): (r: (Relations, bool))
    requires parent != child
    ensures r.1 ==> child !in RelationsOf(m, parent).directChildren
    ensures child in RelationsOf(r.0, parent).directChildren
    ensures forall p, t :: Children(r.0, p, t) == Children(m, p, t)
    ensures forall c, t :: Parents(r.0, c, t) == Parents(m, c, t)
  {
    var prel := RelationsOf(m, parent);
    var isNew := child !in prel.directChildren;
    var m1 := m[parent := prel.(directChildren := prel.directChildren + {child})];
    if !isNew then (m1, false)
    else
      var crel := RelationsOf(m1, child);
      (m1[child := crel.(directParents := crel.directParents + {parent})], parent !in crel.directParents)
  }

  /** `Relations::insert`: nothing when parent and child are the same;
    * otherwise the pair is recorded on both sides, and the answer is
    * whether it is new on both. */
  function InsertRelation(m: Relations, parent: nat, term: Option<string>, child: nat): (r: (Relations, bool))
    ensures parent == child ==> r == (m, false)
  {
    if parent == child then (m, false)
    else match term
      case Some(t) =>
        var (m1, isNew) := AddChild(m, parent, t, child);
        if !isNew then (m1, false) else AddParent(m1, child, t, parent)
      case None => AddDirect(m, parent, child)
  }

  /** `Relations::contains`: a context is its own parent through any term;
    * otherwise the pair must have been recorded. */
  predicate Contains(m: Relations, parent: nat, term: string, child: nat) {
    parent == child || child in Children(m, parent, term)
  }

  /** The relations after recording a pair on both sides. */
  function AddBoth(m: Relations, parent: nat, term: string, child: nat): Relations {
    AddParent(AddChild(m, parent, term, child).0, child, term, parent).0
  }

  lemma AddBothChildren(m: Relations, parent: nat, term: string, child: nat)
    requires ChildrenHaveParents(m)
    ensures ChildrenHaveParents(AddBoth(m, parent, term, child))
  {
    var m2 := AddBoth(m, parent, term, child);
    forall p', t', c' | c' in Children(m2, p', t') ensures p' in Parents(m2, c', t') {
      if p' != parent || t' != term || c' != child {
        assert c' in Children(m, p', t');
      }
    }
  }

  lemma AddBothParents(m: Relations, parent: nat, term: string, child: nat)
    requires ParentsHaveChildren(m)
    ensures ParentsHaveChildren(AddBoth(m, parent, term, child))
  {
    var m2 := AddBoth(m, parent, term, child);
    forall p', t', c' | p' in Parents(m2, c', t') ensures c' in Children(m2, p', t') {
      if p' != parent || t' != term || c' != child {
        assert p' in Parents(m, c', t');
      }
    }
  }

  lemma AddBothDirect(m: Relations, parent: nat, term: string, child: nat)
    requires DirectSymmetric(m)
    ensures DirectSymmetric(AddBoth(m, parent, term, child))
  {
    var m2 := AddBoth(m, parent, term, child);
    forall p', c' ensures c' in RelationsOf(m2, p').directChildren <==> p' in RelationsOf(m2, c').directParents {
      assert RelationsOf(m2, p').directChildren == RelationsOf(m, p').directChildren;
      assert RelationsOf(m2, c').directParents == RelationsOf(m, c').directParents;
    }
  }

  /** Recording a pair already there changes nothing. */
  lemma AddChildPresent(m: Relations, parent: nat, term: string, child: nat)
    requires child in Children(m, parent, term)
    ensures AddChild(m, parent, term, child).0 == m
  {
    assert Children(m, parent, term) + {child} == Children(m, parent, term);
    assert parent in m && term in m[parent].children;
    assert m[parent].children[term := Children(m, parent, term)] == m[parent].children;
  }

  /** Inserting a new pair through a term records it on both sides. */
  lemma InsertRelationNew(m: Relations, parent: nat, term: string, child: nat)
    requires parent != child && child !in Children(m, parent, term)
    ensures InsertRelation(m, parent, Some(term), child) == (AddBoth(m, parent, term, child), parent !in Parents(AddChild(m, parent, term, child).0, child, term))
  {
  }

  /** Inserting through a term keeps parents and children symmetric. */
  lemma InsertRelationSymmetric(m: Relations, parent: nat, term: string, child: nat)
    requires Symmetric(m)
    ensures Symmetric(InsertRelation(m, parent, Some(term), child).0)
  {
    if parent != child {
      if child in Children(m, parent, term) {
        AddChildPresent(m, parent, term, child);
      } else {
        InsertRelationNew(m, parent, term, child);
        AddBothChildren(m, parent, term, child);
        AddBothParents(m, parent, term, child);
        AddBothDirect(m, parent, term, child);
      }
    }
  }

  /** Inserting through a term says whether the pair is new, and makes
    * exactly that pair contained in addition to what was. */
  lemma InsertRelationMeaning(m: Relations, parent: nat, term: string, child: nat, p: nat, t: string, c: nat)
    requires Symmetric(m)
    ensures InsertRelation(m, parent, Some(term), child).1 <==> !Contains(m, parent, term, child)
    ensures Contains(InsertRelation(m, parent, Some(term), child).0, p, t, c) <==>
      Contains(m, p, t, c) || (p == parent && t == term && c == child)
  {
    if parent != child {
      if child in Children(m, parent, term) {
        AddChildPresent(m, parent, term, child);
      } else {
        InsertRelationNew(m, parent, term, child);
        var m1 := AddChild(m, parent, term, child).0;
        assert Parents(m1, child, term) == Parents(m, child, term);
        assert parent !in Parents(m, child, term);
        var m2 := AddBoth(m, parent, term, child);
        assert Children(m2, p, t) == Children(m1, p, t);
      }
    }
  }

  /** A context is always contained in itself, and insertion through no
    * term never changes what is contained through a term. */
  lemma ContainsReflexive(m: Relations, r: nat, term: string, parent: nat, child: nat, p: nat, t: string, c: nat)
    ensures Contains(m, r, term, r)
    ensures Contains(InsertRelation(m, parent, None, child).0, p, t, c) == Contains(m, p, t, c)
  {
  }
}
