/**
 * Property restrictions of the core model (`core/src/ty/restriction.rs`):
 * a restricted type constrains the values of a property by a range (some
 * value, or every value, must be an instance of a type) and by a
 * cardinality (bounds on the number of values).  Metadata is not modelled.
 */
module CoreRestrictions {
  import opened Wrappers

  datatype Cardinality = AtLeast(n: nat) | AtMost(n: nat) | Exactly(n: nat)

  /** A range restriction over type identifiers of type `T`. */
  datatype Range<T> = SomeValuesFrom(ty: T) | AllValuesFrom(ty: T)

  datatype Restriction<T> = RangeRestriction(range: Range<T>) | CardinalityRestriction(cardinality: Cardinality)

  datatype Contradiction = Contradiction

  /** Bounds on the number of values; a missing bound does not constrain. */
  datatype CardinalityRestrictions = Bounds(min: Option<nat>, max: Option<nat>)

  /** Types every value must be an instance of, and types some value must be
    * an instance of. */
  datatype RangeRestrictions<T> = Ranges(all: set<T>, any: set<T>)

  datatype Restrictions<T> = Restrictions(range: RangeRestrictions<T>, cardinality: CardinalityRestrictions)

  /** Whether `k` values satisfy a cardinality restriction. */
  predicate Satisfies(c: Cardinality, k: nat) {
    match c
    case AtLeast(n) => n <= k
    case AtMost(n) => k <= n
    case Exactly(n) => k == n
  }

  /** Whether `k` values lie within the bounds. */
  predicate Admits(b: CardinalityRestrictions, k: nat) {
    (b.min.None? || b.min.value <= k) && (b.max.None? || k <= b.max.value)
  }

  /** The number of cardinality restrictions the bounds stand for. */
  function CardinalityLen(b: CardinalityRestrictions): nat {
    match (b.min, b.max)
    case (Some(x), Some(y)) => if x == y then 1 else 2
    case (Some(_), None) => 1
    case (None, Some(_)) => 1
    case (None, None) => 0
  }

  predicate CardinalityIsEmpty(b: CardinalityRestrictions) {
    b.min.None? && b.max.None?
  }

  /** One step of the restriction iterator: equal bounds (both present or
    * both absent) give `Exactly` once; otherwise the minimum comes out
    * first, then the maximum. */
  function Next(b: CardinalityRestrictions): (r: (Option<Cardinality>, CardinalityRestrictions))
    ensures r.0.Some? ==> CardinalityLen(r.1) < CardinalityLen(b)
    ensures r.0.None? <==> CardinalityIsEmpty(b)
  {
    if b.min == b.max then
      (match b.max case Some(n) => Some(Exactly(n)) case None => None, Bounds(None, None))
    else if b.min.Some? then (Some(AtLeast(b.min.value)), Bounds(None, b.max))
    else (Some(AtMost(b.max.value)), Bounds(None, None))
  }

  /** Everything the iterator yields, in order. */
  function Iterate(b: CardinalityRestrictions): seq<Cardinality>
    decreases CardinalityLen(b)
  {
    var (x, rest) := Next(b);
    match x
    case None => []
    case Some(c) => [c] + Iterate(rest)
  }

  /** The iterator yields as many restrictions as the length says, a single
    * `Exactly` when the bounds agree, and together they admit exactly the
    * counts the bounds admit. */
  lemma IterateMeaning(b: CardinalityRestrictions)
    ensures |Iterate(b)| == CardinalityLen(b)
    ensures b.min.Some? && b.min == b.max ==> Iterate(b) == [Exactly(b.min.value)]
    ensures forall k: nat :: Admits(b, k) <==> forall i :: 0 <= i < |Iterate(b)| ==> Satisfies(Iterate(b)[i], k)
  {
    var it := Iterate(b);
    match (b.min, b.max)
    case (None, None) =>
    case (Some(x), Some(y)) =>
      if x != y {
        assert Iterate(Bounds(None, b.max)) == [AtMost(y)];
        assert it == [AtLeast(x), AtMost(y)];
        forall k: nat ensures Admits(b, k) <==> forall i :: 0 <= i < |it| ==> Satisfies(it[i], k) {
          assert Satisfies(it[0], k) <==> x <= k;
          assert Satisfies(it[1], k) <==> k <= y;
        }
      } else {
        assert Iterate(Bounds(None, None)) == [];
        assert it == [Exactly(x)];
        forall k: nat ensures Admits(b, k) <==> forall i :: 0 <= i < |it| ==> Satisfies(it[i], k) {
          assert Satisfies(it[0], k) <==> k == x;
        }
      }
    case (Some(x), None) =>
      assert Iterate(Bounds(None, None)) == [];
      assert it == [AtLeast(x)];
      forall k: nat ensures Admits(b, k) <==> forall i :: 0 <= i < |it| ==> Satisfies(it[i], k) {
        assert Satisfies(it[0], k) <==> x <= k;
      }
    case (None, Some(y)) =>
      assert it == [AtMost(y)];
      forall k: nat ensures Admits(b, k) <==> forall i :: 0 <= i < |it| ==> Satisfies(it[i], k) {
        assert Satisfies(it[0], k) <==> k <= y;
      }
  }

  /** Adds a cardinality restriction, as written: a new lower or upper bound
    * replaces the old one, so a weaker restriction can undo a stronger one;
    * a bound beyond the opposite bound is a contradiction. */
  function RestrictAsWritten(b: CardinalityRestrictions, c: Cardinality): (r: Result<CardinalityRestrictions, Contradiction>)
    ensures c.AtLeast? ==> (r.Failure? <==> b.max.Some? && c.n > b.max.value)
    ensures c.AtMost? ==> (r.Failure? <==> b.min.Some? && b.min.value > c.n)
    ensures c.AtLeast? && r.Success? ==> forall k: nat :: Admits(r.value, k) <==> Satisfies(c, k) && Admits(b.(min := None), k)
    ensures c.AtMost? && r.Success? ==> forall k: nat :: Admits(r.value, k) <==> Satisfies(c, k) && Admits(b.(max := None), k)
  {
    match c
    case AtLeast(n) =>
      if b.max.Some? && n > b.max.value then Failure(Contradiction) else Success(b.(min := Some(n)))
    case AtMost(n) =>
      if b.min.Some? && b.min.value > n then Failure(Contradiction) else Success(b.(max := Some(n)))
    case Exactly(n) =>
      if b.min.Some? && b.min.value > n then Failure(Contradiction)
      else if b.max.Some? && n > b.max.value then Failure(Contradiction)
      else Success(Bounds(Some(n), Some(n)))
  }

  /** As written, "at least 3" followed by "at least 1" admits two values. */
  lemma RestrictForgetsMin()
    ensures RestrictAsWritten(Bounds(Some(3), None), AtLeast(1)) == Success(Bounds(Some(1), None))
    ensures Admits(Bounds(Some(1), None), 2) && !Satisfies(AtLeast(3), 2)
  {
  }

  function MaxOf(a: Option<nat>, n: nat): nat {
    match a case Some(m) => if m >= n then m else n case None => n
  }

  function MinOf(a: Option<nat>, n: nat): nat {
    match a case Some(m) => if m <= n then m else n case None => n
  }

  /** Adds a cardinality restriction: the bounds narrow to the counts both
    * the old bounds and the restriction admit, and a contradiction is
    * reported only when no count can satisfy both. */
  function Restrict(b: CardinalityRestrictions, c: Cardinality): (r: Result<CardinalityRestrictions, Contradiction>)
    ensures r.Success? ==> forall k: nat :: Admits(r.value, k) <==> Admits(b, k) && Satisfies(c, k)
    ensures r.Failure? ==> forall k: nat :: !(Admits(b, k) && Satisfies(c, k))
    ensures c.Exactly? && r.Success? ==> r.value == Bounds(Some(c.n), Some(c.n))
  {
    match c
    case AtLeast(n) =>
      if b.max.Some? && n > b.max.value then Failure(Contradiction) else Success(b.(min := Some(MaxOf(b.min, n))))
    case AtMost(n) =>
      if b.min.Some? && b.min.value > n then Failure(Contradiction) else Success(b.(max := Some(MinOf(b.max, n))))
    case Exactly(n) =>
      if b.min.Some? && b.min.value > n then Failure(Contradiction)
      else if b.max.Some? && n > b.max.value then Failure(Contradiction)
      else Success(Bounds(Some(n), Some(n)))
  }

  /** The bounds admitting every count either side admits: a bound survives
    * only when both sides have one, the looser of the two. */
  function CardinalityUnion(a: CardinalityRestrictions, b: CardinalityRestrictions): (r: CardinalityRestrictions)
    ensures forall k: nat :: Admits(a, k) || Admits(b, k) ==> Admits(r, k)
    ensures r.min.Some? <==> a.min.Some? && b.min.Some?
    ensures r.max.Some? <==> a.max.Some? && b.max.Some?
    ensures r.min.Some? ==> r.min == a.min || r.min == b.min
    ensures r.max.Some? ==> r.max == a.max || r.max == b.max
  {
    var min := match (a.min, b.min) case (Some(x), Some(y)) => Some(if x <= y then x else y) case _ => None;
    var max := match (a.max, b.max) case (Some(x), Some(y)) => Some(if x >= y then x else y) case _ => None;
    Bounds(min, max)
  }

  /** The bounds admitting the counts both sides admit; a contradiction when
    * the tighter minimum exceeds the tighter maximum. */
  function CardinalityIntersection(a: CardinalityRestrictions, b: CardinalityRestrictions): (r: Result<CardinalityRestrictions, Contradiction>)
    ensures r.Success? ==> forall k: nat :: Admits(r.value, k) <==> Admits(a, k) && Admits(b, k)
    ensures r.Failure? ==> forall k: nat :: !(Admits(a, k) && Admits(b, k))
  {
    var min := match (a.min, b.min)
      case (Some(x), Some(y)) => Some(if x >= y then x else y)
      case (Some(x), None) => Some(x)
      case (None, Some(y)) => Some(y)
      case (None, None) => None;
    var max := match (a.max, b.max)
      case (Some(x), Some(y)) => Some(if x <= y then x else y)
      case (Some(x), None) => Some(x)
      case (None, Some(y)) => Some(y)
      case (None, None) => None;
    if min.Some? && max.Some? && min.value > max.value then Failure(Contradiction)
    else Success(Bounds(min, max))
  }

  /** The intersection is a contradiction exactly when no count satisfies
    * both sides. */
  lemma IntersectionContradiction(a: CardinalityRestrictions, b: CardinalityRestrictions)
    ensures CardinalityIntersection(a, b).Failure? <==> forall k: nat :: !(Admits(a, k) && Admits(b, k))
  {
    var r := CardinalityIntersection(a, b);
    if r.Success? {
      var k: nat := if r.value.min.Some? then r.value.min.value else 0;
      assert Admits(r.value, k);
    }
  }

  // Range restrictions

  /** Whether values, each given as the set of types it is an instance of,
    * meet the range restrictions. */
  predicate RangeHolds<T(!new)>(r: RangeRestrictions<T>, vals: seq<set<T>>) {
    (forall t, i :: t in r.all && 0 <= i < |vals| ==> t in vals[i])
    && (forall t :: t in r.any ==> exists i :: 0 <= i < |vals| && t in vals[i])
  }

  predicate RangeSatisfied<T(!new)>(r: Range<T>, vals: seq<set<T>>) {
    match r
    case AllValuesFrom(t) => forall i :: 0 <= i < |vals| ==> t in vals[i]
    case SomeValuesFrom(t) => exists i :: 0 <= i < |vals| && t in vals[i]
  }

  function RangeLen<T(!new)>(r: RangeRestrictions<T>): nat {
    |r.all| + |r.any|
  }

  /** Adds a range restriction; adding one already present changes
    * nothing. */
  function RangeRestrict<T(!new)>(r: RangeRestrictions<T>, range: Range<T>): (s: RangeRestrictions<T>)
    ensures forall vals :: RangeHolds(s, vals) <==> RangeHolds(r, vals) && RangeSatisfied(range, vals)
    ensures RangeLen(s) == RangeLen(r) + (if range.ty in (if range.AllValuesFrom? then r.all else r.any) then 0 else 1)
  {
    match range
    case AllValuesFrom(t) =>
      assert t in r.all ==> r.all + {t} == r.all;
      r.(all := r.all + {t})
    case SomeValuesFrom(t) =>
      assert t in r.any ==> r.any + {t} == r.any;
      r.(any := r.any + {t})
  }

  /** The range restrictions met whenever either side's are: those common to
    * both. */
  function RangeUnion<T(!new)>(a: RangeRestrictions<T>, b: RangeRestrictions<T>): (r: RangeRestrictions<T>)
    ensures forall vals :: RangeHolds(a, vals) || RangeHolds(b, vals) ==> RangeHolds(r, vals)
    ensures r.all <= a.all && r.all <= b.all && r.any <= a.any && r.any <= b.any
  {
    Ranges(a.all * b.all, a.any * b.any)
  }

  /** The range restrictions met exactly when both sides' are: those of
    * either. */
  function RangeIntersection<T(!new)>(a: RangeRestrictions<T>, b: RangeRestrictions<T>): (r: RangeRestrictions<T>)
    ensures forall vals :: RangeHolds(r, vals) <==> RangeHolds(a, vals) && RangeHolds(b, vals)
  {
    Ranges(a.all + b.all, a.any + b.any)
  }

  // All restrictions of a property

  predicate Holds<T(!new)>(rs: Restrictions<T>, vals: seq<set<T>>) {
    RangeHolds(rs.range, vals) && Admits(rs.cardinality, |vals|)
  }

  predicate RestrictionSatisfied<T(!new)>(r: Restriction<T>, vals: seq<set<T>>) {
    match r
    case RangeRestriction(range) => RangeSatisfied(range, vals)
    case CardinalityRestriction(c) => Satisfies(c, |vals|)
  }

  function Unrestricted<T(!new)>(): Restrictions<T> {
    Restrictions(Ranges({}, {}), Bounds(None, None))
  }

  /** No restrictions hold of every value list, and there are none. */
  lemma UnrestrictedHoldsAll<T(!new)>()
    ensures forall vals :: Holds(Unrestricted<T>(), vals)
    ensures RestrictionsLen(Unrestricted<T>()) == 0
  {
  }

  /** The number of restrictions: those on the range and those on the
    * cardinality. */
  function RestrictionsLen<T(!new)>(rs: Restrictions<T>): nat {
    RangeLen(rs.range) + CardinalityLen(rs.cardinality)
  }

  /** The cardinality bounds a new cardinality restriction leaves in place
    * when it is added as written: the bound of the same kind is replaced. */
  function Kept(b: CardinalityRestrictions, c: Cardinality): CardinalityRestrictions {
    match c
    case AtLeast(_) => b.(min := None)
    case AtMost(_) => b.(max := None)
    case Exactly(_) => Bounds(None, None)
  }

  /** Adds a restriction, as written: a range restriction narrows the
    * values, a cardinality restriction replaces the bound of its kind; only
    * a cardinality restriction can contradict the ones present. */
  function RestrictAll<T(!new)>(rs: Restrictions<T>, r: Restriction<T>): (s: Result<Restrictions<T>, Contradiction>)
    ensures r.RangeRestriction? ==> s.Success? && forall vals :: Holds(s.value, vals) <==> Holds(rs, vals) && RestrictionSatisfied(r, vals)
    ensures s.Success? && r.CardinalityRestriction? ==> s.value.range == rs.range
    ensures s.Success? && r.CardinalityRestriction? ==>
      forall k: nat :: Admits(s.value.cardinality, k) <==> Satisfies(r.cardinality, k) && Admits(Kept(rs.cardinality, r.cardinality), k)
    ensures s.Failure? ==> r.CardinalityRestriction? && forall vals :: !(Holds(rs, vals) && RestrictionSatisfied(r, vals))
  {
    match r
    case RangeRestriction(range) => Success(rs.(range := RangeRestrict(rs.range, range)))
    case CardinalityRestriction(c) =>
      match RestrictAsWritten(rs.cardinality, c)
      case Success(b) => Success(rs.(cardinality := b))
      case Failure(e) => Failure(e)
  }

  /** A cardinality restriction at least as tight as the bound it replaces
    * narrows the restrictions exactly as the intended `Restrict` does. */
  lemma RestrictAllTightens<T(!new)>(rs: Restrictions<T>, c: Cardinality)
    requires c.AtLeast? && rs.cardinality.min.Some? ==> rs.cardinality.min.value <= c.n
    requires c.AtMost? && rs.cardinality.max.Some? ==> c.n <= rs.cardinality.max.value
    ensures RestrictAll(rs, CardinalityRestriction(c)).Success? <==> Restrict(rs.cardinality, c).Success?
    ensures RestrictAll(rs, CardinalityRestriction(c)).Success? ==>
      forall vals :: Holds(RestrictAll(rs, CardinalityRestriction(c)).value, vals) <==> Holds(rs, vals) && Satisfies(c, |vals|)
  {
    assert RestrictAsWritten(rs.cardinality, c) == Restrict(rs.cardinality, c);
  }

  /** The restrictions made of one restriction; adding it to no restriction
    * never fails. */
  function Singleton<T(!new)>(r: Restriction<T>): (rs: Restrictions<T>)
    ensures forall vals :: Holds(rs, vals) <==> RestrictionSatisfied(r, vals)
    ensures RestrictionsLen(rs) == 1
  {
    var u := Unrestricted<T>();
    match r
    case RangeRestriction(range) => u.(range := RangeRestrict(u.range, range))
    case CardinalityRestriction(c) =>
      var b := RestrictAsWritten(u.cardinality, c);
      assert b.Success?;
      u.(cardinality := b.value)
  }

  function RestrictionsUnion<T(!new)>(a: Restrictions<T>, b: Restrictions<T>): (r: Restrictions<T>)
    ensures forall vals :: Holds(a, vals) || Holds(b, vals) ==> Holds(r, vals)
  {
    Restrictions(RangeUnion(a.range, b.range), CardinalityUnion(a.cardinality, b.cardinality))
  }

  function RestrictionsIntersection<T(!new)>(a: Restrictions<T>, b: Restrictions<T>): (r: Result<Restrictions<T>, Contradiction>)
    ensures r.Success? ==> forall vals :: Holds(r.value, vals) <==> Holds(a, vals) && Holds(b, vals)
    ensures r.Failure? ==> forall vals :: !(Holds(a, vals) && Holds(b, vals))
  {
    match CardinalityIntersection(a.cardinality, b.cardinality)
    case Success(c) => Success(Restrictions(RangeIntersection(a.range, b.range), c))
    case Failure(e) => Failure(e)
  }
}
