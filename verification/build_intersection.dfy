/**
 * Layout intersection in the build crate (`build/src/layout/intersection.rs`).
 * An identifier intersection is a set of layouts standing for their
 * intersection, each with metadata; descriptions of the same kind intersect
 * by joining their identifier intersections, and fields that match
 * intersect into a field of no identifier whose layouts are the pairwise
 * intersections.
 */
module BuildIntersection {
  import opened Wrappers
  import opened Ids

  /** Layouts to intersect, with their metadata, in identifier order. */
  datatype IdIntersection<M> = IdIntersection(entries: map<Id, M>)

  function One<M>(id: Id, meta: M): (r: IdIntersection<M>)
    ensures r.entries.Keys == {id}
  {
    IdIntersection(map[id := meta])
  }

  /** Adds a layout; a layout already there merges the new metadata into
    * its own and no entry is added. */
  function Insert<M>(s: IdIntersection<M>, id: Id, meta: M, merge: (M, M) -> M): (r: IdIntersection<M>)
    ensures r.entries.Keys == s.entries.Keys + {id}
    ensures id in s.entries ==> |r.entries| == |s.entries| && r.entries[id] == merge(s.entries[id], meta)
    ensures id !in s.entries ==> r.entries[id] == meta
    ensures forall k :: k in s.entries && k != id ==> r.entries[k] == s.entries[k]
  {
    if id in s.entries then
      assert s.entries.Keys + {id} == s.entries.Keys;
      IdIntersection(s.entries[id := merge(s.entries[id], meta)])
    else
      IdIntersection(s.entries[id := meta])
  }

  /** `intersection` (and `intersect_with`): every layout of `b` inserted
    * into `a`, so common layouts merge their metadata. */
  function Intersection<M>(a: IdIntersection<M>, b: IdIntersection<M>, merge: (M, M) -> M): IdIntersection<M> {
    IdIntersection(map k | k in a.entries.Keys + b.entries.Keys ::
      if k in a.entries && k in b.entries then merge(a.entries[k], b.entries[k])
      else if k in a.entries then a.entries[k] else b.entries[k])
  }

  /** The intersection of two identifier intersections holds the layouts of
    * both, keeps the metadata of the layouts only one side has, and agrees
    * with inserting the other side's layouts one by one. */
  lemma IntersectionMeaning<M>(a: IdIntersection<M>, b: IdIntersection<M>, merge: (M, M) -> M)
    ensures Intersection(a, b, merge).entries.Keys == a.entries.Keys + b.entries.Keys
    ensures forall k :: k in a.entries && k !in b.entries ==> Intersection(a, b, merge).entries[k] == a.entries[k]
    ensures forall k :: k in b.entries && k !in a.entries ==> Intersection(a, b, merge).entries[k] == b.entries[k]
    ensures forall k :: k in a.entries && k in b.entries ==>
      Intersection(a, b, merge).entries[k] == Insert(a, k, b.entries[k], merge).entries[k]
    ensures IdEq(Intersection(a, b, merge), Intersection(b, a, merge))
  {
  }

  /** Identifier intersections are equal when they intersect the same
    * layouts, whatever their metadata. */
  predicate IdEq<M, N>(a: IdIntersection<M>, b: IdIntersection<N>) {
    a.entries.Keys == b.entries.Keys
  }

  /** The identifiers of a set in increasing order. */
  function SortedKeys(s: set<Id>): (r: seq<Id>)
    ensures |r| == |s|
    ensures forall i :: 0 <= i < |r| ==> r[i] in s
    ensures forall x :: x in s ==> x in r
    decreases |s|
  {
    if s == {} then []
    else
      var m := Least(s);
      var others := s - {m};
      assert |others| == |s| - 1;
      var rest := SortedKeys(others);
      var r := [m] + rest;
      assert forall x :: x in s ==> x in r by {
        forall x | x in s ensures x in r {
          if x != m {
            assert x in others;
            assert x in rest;
          }
        }
      }
      assert forall i :: 0 < i < |r| ==> r[i] == rest[i - 1];
      r
  }

  predicate StrictlySorted(r: seq<Id>) {
    forall i, j :: 0 <= i < j < |r| ==> IdLe(r[i], r[j]) && r[i] != r[j]
  }

  /** The identifiers are listed in increasing order, each once. */
  lemma {:induction false} SortedKeysSorted(s: set<Id>)
    ensures StrictlySorted(SortedKeys(s))
    decreases |s|
  {
    if s != {} {
      var m := Least(s);
      var others := s - {m};
      SortedKeysSorted(others);
      var rest := SortedKeys(others);
      var r := SortedKeys(s);
      assert r == [m] + rest;
      forall i, j | 0 <= i < j < |r| ensures IdLe(r[i], r[j]) && r[i] != r[j] {
        if i == 0 {
          assert r[0] == m && r[j] == rest[j - 1] && rest[j - 1] in others;
          assert rest[j - 1] in s && rest[j - 1] != m;
        } else {
          assert r[i] == rest[i - 1] && r[j] == rest[j - 1];
          assert 0 <= i - 1 < j - 1 < |rest|;
          assert IdLe(rest[i - 1], rest[j - 1]) && rest[i - 1] != rest[j - 1];
        }
      }
    }
  }

  /** Two sets list the same identifiers in order exactly when they are
    * the same set. */
  lemma SortedKeysInjective(s: set<Id>, t: set<Id>)
    ensures SortedKeys(s) == SortedKeys(t) <==> s == t
  {
    if SortedKeys(s) == SortedKeys(t) {
      forall x | x in s ensures x in t { assert x in SortedKeys(t); }
      forall x | x in t ensures x in s { assert x in SortedKeys(s); }
    }
  }

  /** Lexicographic order on identifier sequences, a proper prefix first. */
  function LexCmp(x: seq<Id>, y: seq<Id>): (r: Ordering)
    ensures r == Equal <==> x == y
  {
    if |x| == 0 && |y| == 0 then Equal
    else if |x| == 0 then Less
    else if |y| == 0 then Greater
    else if x[0] != y[0] then (if IdLe(x[0], y[0]) then Less else Greater)
    else
      var r := LexCmp(x[1..], y[1..]);
      assert r == Equal ==> x == [x[0]] + x[1..] == [y[0]] + y[1..] == y;
      r
  }

  /** Identifier intersections ordered by their layouts, in order. */
  function IdCmp<M, N>(a: IdIntersection<M>, b: IdIntersection<N>): Ordering {
    LexCmp(SortedKeys(a.entries.Keys), SortedKeys(b.entries.Keys))
  }

  /** The order is consistent with equality: it compares layouts only. */
  lemma IdCmpMeaning<M, N>(a: IdIntersection<M>, b: IdIntersection<N>)
    ensures IdCmp(a, b) == Equal <==> IdEq(a, b)
  {
    SortedKeysInjective(a.entries.Keys, b.entries.Keys);
  }

  /** The layout `intersection_of` a list of layouts, created for an
    * intersection of several (or no) layouts. */
  datatype Created = Created(id: Id, members: seq<Id>)

  /** What preparing a layout left: the layout standing for the
    * intersection, the layout created for it if any, and the stack of
    * layouts still to build. */
  datatype Prepared = Prepared(id: Id, created: Option<Created>, stack: seq<Id>)

  /** `prepare_layout`: a single layout stands for itself; otherwise a new
    * layout (`newId`, from the generator) is declared as the intersection
    * of the list of layouts and pushed on the stack. */
  function PrepareLayout<M>(s: IdIntersection<M>, newId: Id, stack: seq<Id>): (r: Prepared)
    ensures |s.entries| == 1 ==> r.created.None? && r.stack == stack && s.entries.Keys == {r.id}
    ensures |s.entries| != 1 ==>
      r.id == newId && r.stack == stack + [newId]
      && r.created.Some? && r.created.value.id == newId
      && |r.created.value.members| == |s.entries|
      && (forall x :: x in s.entries <==> x in r.created.value.members)
  {
    if |s.entries| == 1 then
      var id := Least(s.entries.Keys);
      assert s.entries.Keys == {id} by {
        forall x | x in s.entries.Keys ensures x == id {
          if x != id {
            assert {x, id} <= s.entries.Keys;
            assert |{x, id}| == 2;
            CardinalityOfSubset({x, id}, s.entries.Keys);
          }
        }
      }
      Prepared(id, None, stack)
    else
      Prepared(newId, Some(Created(newId, SortedKeys(s.entries.Keys))), stack + [newId])
  }

  lemma CardinalityOfSubset<T>(a: set<T>, b: set<T>)
    requires a <= b
    ensures |a| <= |b|
  {
    assert b == a + (b - a);
  }

  /** Layout descriptions with the layouts they refer to as identifier
    * intersections. */
  datatype Description<M> =
    | Never
    | Primitive(primitive: nat)
    | Struct(ids: IdIntersection<M>)
    | Reference(ids: IdIntersection<M>)
    | Enum(ids: IdIntersection<M>)
    | Required(ids: IdIntersection<M>)
    | Optional(ids: IdIntersection<M>)
    | Set(ids: IdIntersection<M>)
    | OneOrMany(ids: IdIntersection<M>)
    | Array(ids: IdIntersection<M>)
    | Alias(ids: IdIntersection<M>)

  /** The kind of a description, one number per variant. */
  function Kind<M>(d: Description<M>): nat {
    match d
    case Never => 0
    case Primitive(_) => 1
    case Struct(_) => 2
    case Reference(_) => 3
    case Enum(_) => 4
    case Required(_) => 5
    case Optional(_) => 6
    case Set(_) => 7
    case OneOrMany(_) => 8
    case Array(_) => 9
    case Alias(_) => 10
  }

  /** The layouts a description refers to. */
  function Layouts<M>(d: Description<M>): set<Id> {
    if d.Never? || d.Primitive? then {} else d.ids.entries.Keys
  }

  /** Descriptions equal up to metadata. */
  predicate Same<M>(a: Description<M>, b: Description<M>) {
    Kind(a) == Kind(b) && (a.Primitive? ==> a.primitive == b.primitive) && Layouts(a) == Layouts(b)
  }

  /** `Description::intersect_with` as written: the array case pairs an
    * array with an alias, so two arrays fall to the default case. */
  function IntersectWithAsWritten<M>(a: Description<M>, b: Description<M>, merge: (M, M) -> M): Description<M> {
    match (a, b)
    case (Never, Never) => Never
    case (Primitive(x), Primitive(y)) => if x == y then a else Never
    case (Struct(x), Struct(y)) => Struct(Intersection(x, y, merge))
    case (Reference(x), Reference(y)) => Reference(Intersection(x, y, merge))
    case (Enum(x), Enum(y)) => Enum(Intersection(x, y, merge))
    case (Required(x), Required(y)) => Required(Intersection(x, y, merge))
    case (Optional(x), Optional(y)) => Optional(Intersection(x, y, merge))
    case (Set(x), Set(y)) => Set(Intersection(x, y, merge))
    case (OneOrMany(x), OneOrMany(y)) => OneOrMany(Intersection(x, y, merge))
    case (Array(x), Alias(y)) => Array(Intersection(x, y, merge))
    case _ => Never
  }

  /** An array intersected with itself is never, while an array and an
    * alias meet into an array, but not the other way round. */
  lemma ArrayMeetsAlias()
    ensures IntersectWithAsWritten(Array(One(Iri(0), 0)), Array(One(Iri(0), 0)), (x: int, y: int) => x) == Never
    ensures IntersectWithAsWritten(Array(One(Iri(0), 0)), Alias(One(Iri(1), 0)), (x: int, y: int) => x).Array?
    ensures IntersectWithAsWritten(Alias(One(Iri(1), 0)), Array(One(Iri(0), 0)), (x: int, y: int) => x) == Never
  {
  }

  /** `Description::intersect_with` with arrays meeting arrays: same-kind
    * descriptions join their layouts, equal primitives are kept, never
    * meets never, and every other pairing is never. */
  function IntersectWith<M>(a: Description<M>, b: Description<M>, merge: (M, M) -> M): Description<M> {
    match (a, b)
    case (Never, Never) => Never
    case (Primitive(x), Primitive(y)) => if x == y then a else Never
    case (Struct(x), Struct(y)) => Struct(Intersection(x, y, merge))
    case (Reference(x), Reference(y)) => Reference(Intersection(x, y, merge))
    case (Enum(x), Enum(y)) => Enum(Intersection(x, y, merge))
    case (Required(x), Required(y)) => Required(Intersection(x, y, merge))
    case (Optional(x), Optional(y)) => Optional(Intersection(x, y, merge))
    case (Set(x), Set(y)) => Set(Intersection(x, y, merge))
    case (OneOrMany(x), OneOrMany(y)) => OneOrMany(Intersection(x, y, merge))
    case (Array(x), Array(y)) => Array(Intersection(x, y, merge))
    case _ => Never
  }

  /** Two descriptions meet into something other than never exactly when
    * they are of the same kind, that kind is neither never nor alias, and
    * primitives are equal; the meet keeps the kind and refers to the
    * layouts of both. */
  lemma IntersectWithMeaning<M>(a: Description<M>, b: Description<M>, merge: (M, M) -> M)
    ensures var r := IntersectWith(a, b, merge);
      (r != Never <==> Kind(a) == Kind(b) && !a.Never? && !a.Alias? && (a.Primitive? ==> a.primitive == b.primitive))
      && (r != Never ==> Kind(r) == Kind(a) && Layouts(r) == Layouts(a) + Layouts(b))
      && (a.Primitive? && r != Never ==> r == a)
  {
    if Kind(a) == Kind(b) && !a.Never? && !a.Primitive? {
      IntersectionMeaning(a.ids, b.ids, merge);
    }
  }

  /** The meet is commutative up to metadata, and every description other
    * than an alias meets itself into itself. */
  lemma {:induction false} IntersectWithLaws<M>(a: Description<M>, b: Description<M>, merge: (M, M) -> M)
    ensures Same(IntersectWith(a, b, merge), IntersectWith(b, a, merge))
    ensures !a.Alias? ==> Same(IntersectWith(a, a, merge), a)
  {
    IntersectWithMeaning(a, b, merge);
    IntersectWithMeaning(b, a, merge);
    IntersectWithMeaning(a, a, merge);
  }

  /** A field of a structure layout under intersection: its identifier if
    * it is an existing field, its name candidates, its layout candidates
    * (each an intersection of layouts) and its property candidates.
    * Metadata is left out. */
  datatype Field = Field(id: Option<Id>, names: set<string>, layouts: set<set<Id>>, props: set<Id>)

  predicate CommonName(a: Field, b: Field) { a.names * b.names != {} }
  predicate NoName(a: Field, b: Field) { a.names == {} && b.names == {} }
  predicate CommonProperty(a: Field, b: Field) { a.props * b.props != {} }
  predicate NoProperty(a: Field, b: Field) { a.props == {} && b.props == {} }

  /** Fields match when they share a name or a property, or when neither
    * has a name or a property. */
  predicate Matches(a: Field, b: Field) {
    CommonName(a, b) || CommonProperty(a, b) || (NoName(a, b) && NoProperty(a, b))
  }

  /** Matching does not depend on the order of the fields, and a field with
    * a name or a property matches itself. */
  lemma MatchesLaws(a: Field, b: Field)
    ensures Matches(a, b) <==> Matches(b, a)
    ensures Matches(a, a)
  {
    assert a.names * b.names == b.names * a.names;
    assert a.props * b.props == b.props * a.props;
    assert a.names * a.names == a.names && a.props * a.props == a.props;
  }

  /** The intersections of a layout candidate of each side. */
  function PairwiseIntersections(a: set<set<Id>>, b: set<set<Id>>): set<set<Id>> {
    set x, y | x in a && y in b :: x + y
  }

  /** `intersected_with`: the same existing field is itself; otherwise
    * fields agreeing on the property (or having none) and on the name (or
    * having none) intersect into a field with no identifier. */
  function IntersectedWith(a: Field, b: Field): Option<Field> {
    if a.id.Some? && b.id.Some? && a.id == b.id then Some(a)
    else if (CommonProperty(a, b) || NoProperty(a, b)) && (CommonName(a, b) || NoName(a, b)) then
      Some(Field(None, a.names + b.names, PairwiseIntersections(a.layouts, b.layouts), a.props + b.props))
    else None
  }

  /** Two distinct fields intersect exactly when they agree on the property
    * and on the name; the intersection has the names and properties of both
    * and a layout candidate per pair of candidates; and fields that
    * intersect match. */
  lemma IntersectedWithMeaning(a: Field, b: Field)
    ensures a.id.Some? && a.id == b.id ==> IntersectedWith(a, b) == Some(a)
    ensures !(a.id.Some? && a.id == b.id) ==>
      (IntersectedWith(a, b).Some? <==> (CommonProperty(a, b) || NoProperty(a, b)) && (CommonName(a, b) || NoName(a, b)))
    ensures !(a.id.Some? && a.id == b.id) && IntersectedWith(a, b).Some? ==>
      var f := IntersectedWith(a, b).value;
      f.id.None? && f.names == a.names + b.names && f.props == a.props + b.props
      && Matches(a, b)
      && (forall x, y :: x in a.layouts && y in b.layouts ==> x + y in f.layouts)
      && (forall z :: z in f.layouts ==> exists x, y :: x in a.layouts && y in b.layouts && z == x + y)
  {
  }

  /** Intersecting fields that are not the same existing field does not
    * depend on their order. */
  lemma IntersectedWithCommutes(a: Field, b: Field)
    requires !(a.id.Some? && a.id == b.id)
    ensures IntersectedWith(a, b) == IntersectedWith(b, a)
  {
    assert a.names * b.names == b.names * a.names;
    assert a.props * b.props == b.props * a.props;
    assert a.names + b.names == b.names + a.names;
    assert a.props + b.props == b.props + a.props;
    var p := PairwiseIntersections(a.layouts, b.layouts);
    var q := PairwiseIntersections(b.layouts, a.layouts);
    forall z | z in p ensures z in q {
      var x, y :| x in a.layouts && y in b.layouts && z == x + y;
      assert z == y + x;
    }
    forall z | z in q ensures z in p {
      var y, x :| y in b.layouts && x in a.layouts && z == y + x;
      assert z == x + y;
    }
    assert p == q;
  }

  /** Matching fields need not intersect: fields sharing a name but with
    * different properties match, yet their intersection is none. */
  lemma MatchingWithoutIntersection()
    ensures var a := Field(None, {"x"}, {}, {Iri(0)});
      var b := Field(None, {"x"}, {}, {Iri(1)});
      Matches(a, b) && IntersectedWith(a, b).None?
  {
    var a := Field(None, {"x"}, {}, {Iri(0)});
    var b := Field(None, {"x"}, {}, {Iri(1)});
    assert "x" in a.names * b.names;
    assert a.props * b.props == {};
  }
}
