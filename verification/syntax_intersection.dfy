/**
 * Layout intersection in the syntax crate (`syntax/src/build/intersection.rs`
 * and the field parts of `syntax/src/build/intersection/structure.rs`): an
 * intersected layout is a set of identifiers it is known under and a
 * description; intersecting two layouts that share an identifier gives an
 * alias to it, and otherwise intersects the descriptions.  Causes (source
 * locations) are not modelled.
 */
module SyntaxIntersection {
  import opened Wrappers
  import opened Ids

  // Field cardinality restrictions (structure.rs)

  const U32Max: nat := 0xFFFF_FFFF

  type U32 = x: nat | x <= 0xFFFF_FFFF

  datatype FieldCardinality = AtLeast(n: U32) | AtMost(n: U32) | Exactly(n: U32)

  /** Bounds on the number of values of a field; `[0, U32Max]` is no
    * restriction at all. */
  datatype CardinalityRestrictions = Bounds(min: U32, max: U32)

  function DefaultCardinality(): (c: CardinalityRestrictions)
    ensures forall k: U32 :: Admits(c, k)
    ensures MinBound(c).None? && MaxBound(c).None?
  {
    Bounds(0, U32Max)
  }

  predicate Admits(c: CardinalityRestrictions, k: nat) {
    c.min <= k <= c.max
  }

  predicate Satisfies(r: FieldCardinality, k: nat) {
    match r
    case AtLeast(n) => n <= k
    case AtMost(n) => k <= n
    case Exactly(n) => k == n
  }

  /** The lower bound, when it restricts anything. */
  function MinBound(c: CardinalityRestrictions): (r: Option<U32>)
    ensures r.None? <==> c.min == 0
    ensures r.None? ==> forall k: nat :: Admits(c, k) <==> k <= c.max
  {
    if c.min > 0 then Some(c.min) else None
  }

  /** The upper bound, when it restricts anything. */
  function MaxBound(c: CardinalityRestrictions): (r: Option<U32>)
    ensures r.None? <==> c.max == U32Max
    ensures r.None? ==> forall k: U32 :: Admits(c, k) <==> c.min <= k
  {
    if c.max < U32Max then Some(c.max) else None
  }

  /** Adds a restriction: false, with the bounds unchanged, when it
    * contradicts them; otherwise the bounds narrow to the counts both
    * admit. */
  function Insert(c: CardinalityRestrictions, r: FieldCardinality): (res: (bool, CardinalityRestrictions))
    ensures r.AtLeast? ==> (res.0 <==> r.n <= c.max)
    ensures r.AtMost? ==> (res.0 <==> c.min <= r.n)
    ensures r.Exactly? ==> (res.0 <==> c.min <= r.n <= c.max)
    ensures !res.0 ==> res.1 == c
    ensures res.0 ==> forall k: nat :: Admits(res.1, k) <==> Admits(c, k) && Satisfies(r, k)
    ensures c.min <= c.max ==> res.1.min <= res.1.max
  {
    match r
    case AtLeast(m) =>
      if m > c.max then (false, c) else (true, c.(min := if m >= c.min then m else c.min))
    case AtMost(m) =>
      if c.min > m then (false, c) else (true, c.(max := if m <= c.max then m else c.max))
    case Exactly(m) =>
      if c.min > m then (false, c)
      else if m > c.max then (false, c)
      else (true, Bounds(m, m))
  }

  /** The bounds admitting the counts both sides admit, if any. */
  function CardinalityIntersection(a: CardinalityRestrictions, b: CardinalityRestrictions): (r: Option<CardinalityRestrictions>)
    ensures r.Some? ==> forall k: nat :: Admits(r.value, k) <==> Admits(a, k) && Admits(b, k)
    ensures r.None? <==> forall k: nat :: !(Admits(a, k) && Admits(b, k))
  {
    var min := if a.min >= b.min then a.min else b.min;
    var max := if a.max <= b.max then a.max else b.max;
    if max >= min then
      assert Admits(a, min) && Admits(b, min);
      Some(Bounds(min, max))
    else None
  }

  // Field layout descriptions (structure.rs)

  /** The container a field's layout is, arrays carrying their (stripped)
    * semantics. */
  datatype FieldDesc<S> = RequiredDesc | OptionDesc | ArrayDesc(semantics: Option<S>) | SetDesc

  /** Whether every value of a field of layout `a` is one of layout `b`. */
  predicate IsIncludedIn<S(==)>(a: FieldDesc<S>, b: FieldDesc<S>) {
    match (a, b)
    case (RequiredDesc, RequiredDesc) => true
    case (RequiredDesc, OptionDesc) => true
    case (OptionDesc, OptionDesc) => true
    case (SetDesc, SetDesc) => true
    case (ArrayDesc(x), ArrayDesc(y)) => x == y
    case _ => false
  }

  /** Inclusion is a preorder. */
  lemma InclusionPreorder<S>(a: FieldDesc<S>, b: FieldDesc<S>, c: FieldDesc<S>)
    ensures IsIncludedIn(a, a)
    ensures IsIncludedIn(a, b) && IsIncludedIn(b, c) ==> IsIncludedIn(a, c)
    ensures IsIncludedIn(a, b) && IsIncludedIn(b, a) ==> a == b
  {
  }

  function DescIntersection<S(==)>(a: FieldDesc<S>, b: FieldDesc<S>): (r: Option<FieldDesc<S>>)
    ensures r.Some? ==> IsIncludedIn(r.value, a) && IsIncludedIn(r.value, b)
  {
    match (a, b)
    case (RequiredDesc, RequiredDesc) => Some(RequiredDesc)
    case (RequiredDesc, OptionDesc) => Some(RequiredDesc)
    case (OptionDesc, RequiredDesc) => Some(RequiredDesc)
    case (OptionDesc, OptionDesc) => Some(OptionDesc)
    case (SetDesc, SetDesc) => Some(SetDesc)
    case (ArrayDesc(x), ArrayDesc(y)) => if x == y then Some(ArrayDesc(x)) else None
    case _ => None
  }

  /** The intersection is the greatest description included in both sides,
    * and exists exactly when some description is. */
  lemma {:induction false} DescIntersectionIsMeet<S>(a: FieldDesc<S>, b: FieldDesc<S>, d: FieldDesc<S>)
    requires IsIncludedIn(d, a) && IsIncludedIn(d, b)
    ensures DescIntersection(a, b).Some? && IsIncludedIn(d, DescIntersection(a, b).value)
  {
    match d
    case RequiredDesc =>
      assert a in {RequiredDesc, OptionDesc} && b in {RequiredDesc, OptionDesc};
    case OptionDesc =>
      assert a == OptionDesc && b == OptionDesc;
    case SetDesc =>
      assert a == SetDesc && b == SetDesc;
    case ArrayDesc(x) =>
      assert a == ArrayDesc(x) && b == ArrayDesc(x);
  }

  // Field range restrictions (structure.rs)

  /** Layouts some value must have, and layouts every value must have. */
  datatype RangeRestrictions = Ranges(any: set<Id>, all: set<Id>)

  /** Keeps the `all` layouts of both sides and every `any` layout of
    * either; no `all` layout in common is no intersection. */
  function RangeIntersection(a: RangeRestrictions, b: RangeRestrictions): (r: Option<RangeRestrictions>)
    ensures r.Some? <==> exists id :: id in a.all && id in b.all
    ensures r.Some? ==> r.value.all == a.all * b.all && r.value.any == a.any + b.any
  {
    if a.all * b.all == {} then
      assert forall id :: !(id in a.all && id in b.all) by {
        forall id | id in a.all ensures id !in b.all {
          assert id !in a.all * b.all;
        }
      }
      None
    else
      var id :| id in a.all * b.all;
      Some(Ranges(a.any + b.any, a.all * b.all))
  }

  /** The range intersection does not depend on the order of its sides,
    * and a range intersected with itself is itself when it has an `all`
    * layout. */
  lemma RangeIntersectionLaws(a: RangeRestrictions, b: RangeRestrictions)
    ensures RangeIntersection(a, b) == RangeIntersection(b, a)
    ensures a.all != {} ==> RangeIntersection(a, a) == Some(a)
  {
    assert a.all * b.all == b.all * a.all && a.any + b.any == b.any + a.any;
    assert a.all * a.all == a.all && a.any + a.any == a.any;
  }

  // Fields (structure.rs)

  datatype IntersectedField = IntersectedField(name: Option<string>, property: Option<Id>)

  /** Whether two fields are the same field of an intersection: by name when
    * both have one, and otherwise by property when both have one. */
  predicate Matches(a: IntersectedField, b: IntersectedField) {
    match (a.name, b.name)
    case (Some(x), Some(y)) => x == y
    case _ =>
      match (a.property, b.property)
      case (Some(p), Some(q)) => p == q
      case _ => false
  }

  /** Matching is symmetric; a field with neither name nor property matches
    * nothing, and two named fields never match by property. */
  lemma MatchesLaws(a: IntersectedField, b: IntersectedField)
    ensures Matches(a, b) <==> Matches(b, a)
    ensures a.name.None? && a.property.None? ==> !Matches(a, b)
    ensures a.name.Some? && b.name.Some? && a.name != b.name ==> !Matches(a, b)
    ensures a == b && (a.name.Some? || a.property.Some?) ==> Matches(a, b)
  {
  }

  // Intersected layouts (intersection.rs)

  /** An intersected layout description.  Struct and enum descriptions are
    * kept abstract, as are primitives, literal patterns and arrays, which
    * only take part through equality. */
  datatype Desc<S, E> =
    | Never
    | Primitive(primitive: nat)
    | Struct(structure: S)
    | Reference(target: Id)
    | Literal(pattern: string)
    | Enum(enumeration: E)
    | SetOf(item: Id)
    | ArrayOf(array: nat)
    | Alias(alias: Id)

  /** A layout known under the identifiers `ids`, with its description. */
  datatype Layout<S, E> = Layout(ids: set<Id>, desc: Desc<S, E>)

  datatype Error = UnknownLayout(id: Id) | UnexpectedFieldRestriction | NestedError(code: nat)

  /** The intersections made elsewhere: of two structs, of two enums, and of
    * an enum with a layout that is not one. */
  datatype Meets<!S, !E> = Meets(
    structs: (S, S) -> Result<Desc<S, E>, Error>,
    enums: (E, E) -> Result<Desc<S, E>, Error>,
    enumWith: (E, Layout<S, E>) -> Result<Desc<S, E>, Error>)

  /** The stored layouts, by identifier, as intersected descriptions. */
  type Context<S, E> = map<Id, Desc<S, E>>

  /** Two intersected layouts are equal when they share an identifier, or
    * when neither has one and their descriptions are equal. */
  predicate LayoutEq<S(==), E(==)>(a: Layout<S, E>, b: Layout<S, E>) {
    (exists id :: id in a.ids && id in b.ids) || (a.ids == {} && b.ids == {} && a.desc == b.desc)
  }

  /** The equality is symmetric and reflexive, but not transitive: the shared
    * identifiers may differ. */
  lemma LayoutEqLaws<S, E>(a: Layout<S, E>, b: Layout<S, E>)
    ensures LayoutEq(a, b) <==> LayoutEq(b, a)
    ensures LayoutEq(a, a)
  {
    if a.ids != {} {
      var id :| id in a.ids;
    }
  }

  lemma LayoutEqNotTransitive()
    ensures var a: Layout<nat, nat>, b: Layout<nat, nat>, c: Layout<nat, nat> :=
      Layout({Iri(0)}, Never), Layout({Iri(0), Iri(1)}, Never), Layout({Iri(1)}, Never);
      LayoutEq(a, b) && LayoutEq(b, c) && !LayoutEq(a, c)
  {
    var a: Layout<nat, nat>, b: Layout<nat, nat>, c: Layout<nat, nat> :=
      Layout({Iri(0)}, Never), Layout({Iri(0), Iri(1)}, Never), Layout({Iri(1)}, Never);
    assert Iri(0) in a.ids && Iri(0) in b.ids;
    assert Iri(1) in b.ids && Iri(1) in c.ids;
  }

  /** The description reached by following `n` aliases through the stored
    * layouts, stopping early at a description that is not a known alias. */
  function Follow<S, E>(ctx: Context<S, E>, d: Desc<S, E>, n: nat): Desc<S, E>
    decreases n
  {
    if n == 0 then d
    else match d
      case Alias(id) => if id in ctx then Follow(ctx, ctx[id], n - 1) else d
      case _ => d
  }

  lemma CardinalityShrinks(a: set<Id>, b: set<Id>, id: Id)
    requires id in a && id !in b
    ensures |a - (b + {id})| < |a - b|
  {
    assert a - (b + {id}) == (a - b) - {id};
  }

  /** Follows the alias chain of a description, recording every alias met,
    * and stops at the first description that is not an alias or at an alias
    * met before. */
  function CompressDesc<S, E>(ctx: Context<S, E>, d: Desc<S, E>, aliases: set<Id>): (r: Result<(set<Id>, Desc<S, E>), Error>)
    requires aliases <= ctx.Keys
    ensures r.Success? ==> aliases <= r.value.0 <= ctx.Keys + aliases
    ensures r.Success? && r.value.1.Alias? ==> r.value.1.alias in r.value.0
    ensures r.Success? && d.Alias? ==> d.alias in r.value.0
    ensures r.Success? && !d.Alias? ==> r.value == (aliases, d)
    ensures r.Failure? ==> r.error.UnknownLayout? && r.error.id !in ctx
    decreases |ctx.Keys - aliases|
  {
    match d
    case Alias(id) =>
      if id in aliases then Success((aliases, d))
      else if id !in ctx then Failure(UnknownLayout(id))
      else
        CardinalityShrinks(ctx.Keys, aliases, id);
        CompressDesc(ctx, ctx[id], aliases + {id})
    case _ => Success((aliases, d))
  }

  /** Compression ends where following as many aliases as it records, from
    * the start, ends. */
  lemma {:induction false} CompressFollows<S, E>(ctx: Context<S, E>, d: Desc<S, E>, aliases: set<Id>)
    requires aliases <= ctx.Keys
    requires CompressDesc(ctx, d, aliases).Success?
    ensures var r := CompressDesc(ctx, d, aliases).value;
      r.1 == Follow(ctx, d, |r.0 - aliases|)
    decreases |ctx.Keys - aliases|
  {
    var r := CompressDesc(ctx, d, aliases).value;
    match d
    case Alias(id) =>
      if id in aliases {
        assert r.0 - aliases == {};
      } else {
        CardinalityShrinks(ctx.Keys, aliases, id);
        CompressFollows(ctx, ctx[id], aliases + {id});
        assert r.0 - aliases == (r.0 - (aliases + {id})) + {id};
        assert |r.0 - aliases| == |r.0 - (aliases + {id})| + 1;
      }
    case _ =>
      assert r.0 - aliases == {};
  }

  /** Two layouts aliasing each other compress to the first alias, having
    * met both. */
  lemma CompressCycle()
    ensures var ctx := map[Iri(1) := Desc<nat, nat>.Alias(Iri(2)), Iri(2) := Desc<nat, nat>.Alias(Iri(1))];
      CompressDesc(ctx, Alias(Iri(1)), {}) == Success(({Iri(1), Iri(2)}, Alias(Iri(1))))
  {
    var ctx := map[Iri(1) := Desc<nat, nat>.Alias(Iri(2)), Iri(2) := Desc<nat, nat>.Alias(Iri(1))];
    var none: set<Id> := {};
    assert CompressDesc(ctx, Alias(Iri(1)), {Iri(1), Iri(2)}) == Success(({Iri(1), Iri(2)}, Alias(Iri(1))));
    assert {Iri(1)} + {Iri(2)} == {Iri(1), Iri(2)};
    assert CompressDesc(ctx, Alias(Iri(2)), {Iri(1)}) == CompressDesc(ctx, Alias(Iri(1)), {Iri(1), Iri(2)});
    assert none + {Iri(1)} == {Iri(1)};
  }

  /** A layout without identifiers takes those of its alias chain. */
  function Compress<S, E>(ctx: Context<S, E>, l: Layout<S, E>): (r: Result<Layout<S, E>, Error>)
    ensures l.ids != {} ==> r == Success(l)
    ensures r.Success? && l.ids == {} ==> r.value.desc == Follow(ctx, l.desc, |r.value.ids|)
  {
    if l.ids == {} then
      match CompressDesc(ctx, l.desc, {})
      case Success((ids, d)) =>
        CompressFollows(ctx, l.desc, {});
        assert ids - {} == ids;
        Success(Layout(ids, d))
      case Failure(e) => Failure(e)
    else Success(l)
  }

  /** The first identifier both layouts are known under. */
  function SharedId<S, E>(a: Layout<S, E>, b: Layout<S, E>): (r: Option<Id>)
    ensures r.None? <==> forall id :: !(id in a.ids && id in b.ids)
    ensures r.Some? ==> r.value in a.ids && r.value in b.ids
    ensures r.Some? ==> forall id :: id in a.ids && id in b.ids ==> IdLe(r.value, id)
  {
    if a.ids * b.ids == {} then
      assert forall id :: !(id in a.ids && id in b.ids) by {
        forall id | id in a.ids ensures id !in b.ids {
          assert id !in a.ids * b.ids;
        }
      }
      None
    else Some(Least(a.ids * b.ids))
  }

  /** The intersection of two descriptions neither of which shares an
    * identifier with the other: an enum on either side is left to the enum
    * intersection, `Never` absorbs the rest, and the other kinds survive only
    * when equal. */
  function DescMeet<S(==), E(==)>(d: Desc<S, E>, ids: set<Id>, other: Desc<S, E>, otherIds: set<Id>, m: Meets<S, E>): (r: Result<Desc<S, E>, Error>)
    ensures !other.Enum? && d.Never? ==> r == Success(Never)
    ensures !other.Enum? && (d.Primitive? || d.Reference? || d.Literal? || d.SetOf? || d.ArrayOf? || d.Alias?)
      ==> r == Success(if other == d then d else Never)
    ensures d.Struct? && !other.Enum? && !other.Struct? ==> r == Success(Never)
  {
    match (d, other)
    case (Enum(a), Enum(b)) => m.enums(a, b)
    case (_, Enum(b)) => m.enumWith(b, Layout(ids, d))
    case (Never, _) => Success(Never)
    case (Struct(a), Struct(b)) => m.structs(a, b)
    case (Struct(_), _) => Success(Never)
    case (Enum(a), _) => m.enumWith(a, Layout(otherIds, other))
    case _ => Success(if other == d then d else Never)
  }

  /** Intersects two layouts once both are compressed: a shared identifier
    * makes the result an alias to the first one, known under it alone. */
  function Intersect<S(==), E(==)>(ctx: Context<S, E>, a: Layout<S, E>, b: Layout<S, E>, m: Meets<S, E>): (r: Result<Layout<S, E>, Error>)
    ensures (Compress(ctx, a).Success? && Compress(ctx, b).Success?
             && SharedId(Compress(ctx, a).value, Compress(ctx, b).value).Some?) ==>
      var id := SharedId(Compress(ctx, a).value, Compress(ctx, b).value).value;
      r == Success(Layout({id}, Alias(id)))
    ensures (Compress(ctx, a).Success? && Compress(ctx, b).Success?
             && SharedId(Compress(ctx, a).value, Compress(ctx, b).value).None? && r.Success?) ==> r.value.ids == {}
  {
    var a' :- Compress(ctx, a);
    var b' :- Compress(ctx, b);
    match SharedId(a', b')
    case Some(id) => Success(Layout({id}, Alias(id)))
    case None =>
      var d :- DescMeet(a'.desc, a'.ids, b'.desc, b'.ids, m);
      Success(Layout({}, d))
  }

  /** A layout intersected with one sharing an identifier is equal to both,
    * in the sense of the layout equality. */
  lemma SharedIntersectionIsEqual<S, E>(ctx: Context<S, E>, a: Layout<S, E>, b: Layout<S, E>, m: Meets<S, E>)
    requires a.ids != {} && b.ids != {} && SharedId(a, b).Some?
    ensures Intersect(ctx, a, b, m).Success?
    ensures LayoutEq(Intersect(ctx, a, b, m).value, a) && LayoutEq(Intersect(ctx, a, b, m).value, b)
  {
    var id := SharedId(a, b).value;
    assert id in Intersect(ctx, a, b, m).value.ids;
  }

  /** A layout for one identifier: an alias to it, not yet known under
    * it. */
  function NewLayout<S, E>(id: Id): Layout<S, E> {
    Layout({}, Alias(id))
  }

  /** A layout for one identifier is an alias to it, not yet known under
    * it. */
  lemma NewLayoutIsAlias<S, E>(id: Id)
    ensures NewLayout<S, E>(id).ids == {} && NewLayout<S, E>(id).desc == Alias(id)
  {
  }

  function IntersectFrom<S(==), E(==)>(ctx: Context<S, E>, acc: Layout<S, E>, ids: seq<Id>, i: nat, m: Meets<S, E>): Result<Layout<S, E>, Error>
    requires i <= |ids|
    decreases |ids| - i
  {
    if i == |ids| then Success(acc)
    else
      var next :- Intersect(ctx, acc, NewLayout(ids[i]), m);
      IntersectFrom(ctx, next, ids, i + 1, m)
  }

  /** The intersection of the layouts of a sequence of identifiers,
    * compressed; no identifier at all is the empty layout `Never`. */
  function TryFromIter<S(==), E(==)>(ctx: Context<S, E>, ids: seq<Id>, m: Meets<S, E>): (r: Result<Layout<S, E>, Error>)
    ensures ids == [] ==> r == Success(Layout({}, Never))
    ensures |ids| == 1 && ids[0] !in ctx ==> r == Failure(UnknownLayout(ids[0]))
  {
    if ids == [] then Success(Layout({}, Never))
    else
      var l :- IntersectFrom(ctx, NewLayout(ids[0]), ids, 1, m);
      Compress(ctx, l)
  }

  /** Applies field restrictions: none leave the layout as it is; a struct
    * applies them through `applyStruct`, becoming `Never` when one cannot
    * hold; any other description rejects them. */
  function ApplyRestrictions<S, E, F>(l: Layout<S, E>, restrictions: seq<F>, applyStruct: (S, seq<F>) -> Result<Option<S>, Error>): (r: Result<Layout<S, E>, Error>)
    ensures restrictions == [] ==> r == Success(l)
    ensures restrictions != [] && !l.desc.Struct? ==> r == Failure(UnexpectedFieldRestriction)
    ensures restrictions != [] && r.Success? ==> r.value.ids == {} && (r.value.desc.Struct? || r.value.desc.Never?)
  {
    if restrictions == [] then Success(l)
    else
      match l.desc
      case Struct(s) =>
        (match applyStruct(s, restrictions)
         case Success(Some(s')) => Success(Layout({}, Struct(s')))
         case Success(None) => Success(Layout({}, Never))
         case Failure(e) => Failure(e))
      case _ => Failure(UnexpectedFieldRestriction)
  }
}
