/**
 * The type lattice of the tree-value crate (`src/ty/mod.rs`): resource,
 * literal, struct, enum and list types, the subtype comparison between two
 * types, and what values a type contains.
 */
module Types {
  import opened Wrappers
  import opened Values

  // Partial orders

  /** The converse comparison. */
  function Reverse(o: Ordering): (r: Ordering)
    ensures (r == Equal) == (o == Equal)
    ensures o != Equal ==> r != o
  {
    match o
    case Less => Greater
    case Equal => Equal
    case Greater => Less
  }

  /** Refines a comparison made so far with one more: equal defers to the
    * new one, and a strict comparison survives only an equal or agreeing
    * one. */
  function RefineCmp(cmp: Ordering, refineWith: Option<Ordering>): (r: Option<Ordering>)
    ensures cmp == Equal ==> r == refineWith
    ensures refineWith == Some(Equal) ==> r == Some(cmp)
    ensures r.Some? ==> refineWith.Some? && (r.value == cmp || cmp == Equal)
  {
    match (cmp, refineWith)
    case (_, None) => None
    case (Equal, Some(c)) => Some(c)
    case (Greater, Some(Greater)) => Some(Greater)
    case (Greater, Some(Equal)) => Some(Greater)
    case (Less, Some(Less)) => Some(Less)
    case (Less, Some(Equal)) => Some(Less)
    case _ => None
  }

  /** Refines `cmp` by every comparison of a sequence in turn, stopping at the
    * first incomparable result. */
  function RefineAll(cmp: Ordering, cs: seq<Option<Ordering>>): Option<Ordering>
    decreases |cs|
  {
    if cs == [] then Some(cmp)
    else
      match RefineCmp(cmp, cs[0])
      case None => None
      case Some(c) => RefineAll(c, cs[1..])
  }

  /** The outcome of refining from equal, stated over the comparisons: equal
    * when all are; greater (less) when all are greater (less) or equal and one
    * is not equal; incomparable otherwise. */
  lemma {:induction false} RefineAllMeaning(cmp: Ordering, cs: seq<Option<Ordering>>, o: Ordering)
    ensures RefineAll(cmp, cs) == Some(o) <==>
      (forall i :: 0 <= i < |cs| ==> cs[i] == Some(Equal) || cs[i] == Some(o))
      && (o == Equal ==> cmp == Equal)
      && (o != Equal ==> cmp == o || cmp == Equal)
      && (o != Equal && cmp == Equal ==> exists i :: 0 <= i < |cs| && cs[i] == Some(o))
    decreases |cs|
  {
    if cs != [] {
      match RefineCmp(cmp, cs[0])
      case None =>
      case Some(c) =>
        RefineAllMeaning(c, cs[1..], o);
        if o != Equal && c == o && cmp == Equal {
          assert cs[0] == Some(o);
        }
        if RefineAll(c, cs[1..]) == Some(o) && o != Equal && cmp == Equal && c == Equal {
          var i :| 0 <= i < |cs[1..]| && cs[1..][i] == Some(o);
          assert cs[i + 1] == Some(o);
        }
        assert forall i :: 0 < i < |cs| ==> cs[i] == cs[1..][i - 1];
    }
  }

  // Boolean types

  /** A boolean type: every boolean, or one constant. */
  datatype BooleanType = BooleanType(constant: Option<bool>)

  predicate BooleanContains(t: BooleanType, b: bool) {
    match t.constant
    case Some(c) => c == b
    case None => true
  }

  function BooleanCmp(a: BooleanType, b: BooleanType): Option<Ordering> {
    match (a.constant, b.constant)
    case (Some(x), Some(y)) => if x == y then Some(Equal) else None
    case (None, Some(_)) => Some(Greater)
    case (Some(_), None) => Some(Less)
    case (None, None) => Some(Equal)
  }

  /** Every boolean of `b` is one of `a`. */
  predicate BooleanIncludes(a: BooleanType, b: BooleanType) {
    forall x: bool :: BooleanContains(b, x) ==> BooleanContains(a, x)
  }

  /** The boolean comparison is inclusion of the booleans each type holds:
    * the unconstrained type is greater than a constant, and two different
    * constants are incomparable. */
  lemma BooleanCmpIsInclusion(a: BooleanType, b: BooleanType)
    ensures BooleanCmp(a, b) == Some(Equal) <==> BooleanIncludes(a, b) && BooleanIncludes(b, a)
    ensures BooleanCmp(a, b) == Some(Greater) <==> BooleanIncludes(a, b) && !BooleanIncludes(b, a)
    ensures BooleanCmp(a, b) == Some(Less) <==> !BooleanIncludes(a, b) && BooleanIncludes(b, a)
    ensures BooleanCmp(a, b).None? <==> !BooleanIncludes(a, b) && !BooleanIncludes(b, a)
  {
    if a.constant.Some? && b.constant == None {
      assert BooleanContains(b, !a.constant.value);
    }
    if a.constant == None && b.constant.Some? {
      assert BooleanContains(a, !b.constant.value);
    }
    if a.constant.Some? && b.constant.Some? && a.constant != b.constant {
      assert BooleanContains(b, b.constant.value);
      assert BooleanContains(a, a.constant.value);
    }
  }

  // Resource types

  /** A resource type: every resource, or a given set of them. */
  datatype ResourceType<R> = ResourceType(resources: Option<set<R>>)

  predicate ResourceContains<R>(t: ResourceType<R>, r: R) {
    match t.resources
    case Some(s) => r in s
    case None => true
  }

  function ResourceCmp<R(==)>(a: ResourceType<R>, b: ResourceType<R>): Option<Ordering> {
    match (a.resources, b.resources)
    case (Some(x), Some(y)) =>
      if x == y then Some(Equal)
      else if y <= x then Some(Greater)
      else if x <= y then Some(Less)
      else None
    case (None, Some(_)) => Some(Greater)
    case (Some(_), None) => Some(Less)
    case (None, None) => Some(Equal)
  }

  /** A resource comparison never contradicts inclusion: a greater type holds
    * every resource of the other; two restricted types compare exactly by
    * inclusion of their sets. */
  lemma ResourceCmpSound<R>(a: ResourceType<R>, b: ResourceType<R>, r: R)
    ensures ResourceCmp(a, b) in {Some(Greater), Some(Equal)} && ResourceContains(b, r) ==> ResourceContains(a, r)
    ensures ResourceCmp(a, b) in {Some(Less), Some(Equal)} && ResourceContains(a, r) ==> ResourceContains(b, r)
    ensures a.resources.Some? && b.resources.Some? ==>
      (ResourceCmp(a, b).None? <==> !(a.resources.value <= b.resources.value) && !(b.resources.value <= a.resources.value))
  {
  }

  // Rational order

  /** `a <= b` for two rationals with positive denominators. */
  predicate RatLe(a: Number, b: Number) {
    a.num * b.den <= b.num * a.den
  }

  predicate RatLt(a: Number, b: Number) {
    a.num * b.den < b.num * a.den
  }

  lemma MulLe(x: int, y: int, k: int)
    requires x <= y && k > 0
    ensures x * k <= y * k
  {
  }

  lemma MulLt(x: int, y: int, k: int)
    requires x < y && k > 0
    ensures x * k < y * k
  {
  }

  lemma Swap(a: int, b: int, c: int)
    ensures (a * b) * c == (a * c) * b
  {
  }

  /** Cross-multiplied comparisons chain through a positive middle
    * denominator: `p <= q` and `q <= t` after scaling give `p <= t`. */
  lemma CrossLe(x1: int, d1: int, x2: int, d2: int, x3: int, d3: int)
    requires d1 > 0 && d2 > 0 && d3 > 0
    requires x1 * d2 <= x2 * d1 && x2 * d3 <= x3 * d2
    ensures x1 * d3 <= x3 * d1
  {
    MulLe(x1 * d2, x2 * d1, d3);
    MulLe(x2 * d3, x3 * d2, d1);
    Swap(x2, d1, d3);
    Swap(x1, d2, d3);
    Swap(x3, d2, d1);
    if x3 * d1 < x1 * d3 {
      MulLt(x3 * d1, x1 * d3, d2);
    }
  }

  lemma CrossLtLe(x1: int, d1: int, x2: int, d2: int, x3: int, d3: int)
    requires d1 > 0 && d2 > 0 && d3 > 0
    requires x1 * d2 < x2 * d1 && x2 * d3 <= x3 * d2
    ensures x1 * d3 < x3 * d1
  {
    MulLt(x1 * d2, x2 * d1, d3);
    MulLe(x2 * d3, x3 * d2, d1);
    Swap(x2, d1, d3);
    Swap(x1, d2, d3);
    Swap(x3, d2, d1);
    if x3 * d1 <= x1 * d3 {
      MulLe(x3 * d1, x1 * d3, d2);
    }
  }

  lemma CrossLeLt(x1: int, d1: int, x2: int, d2: int, x3: int, d3: int)
    requires d1 > 0 && d2 > 0 && d3 > 0
    requires x1 * d2 <= x2 * d1 && x2 * d3 < x3 * d2
    ensures x1 * d3 < x3 * d1
  {
    MulLe(x1 * d2, x2 * d1, d3);
    MulLt(x2 * d3, x3 * d2, d1);
    Swap(x2, d1, d3);
    Swap(x1, d2, d3);
    Swap(x3, d2, d1);
    if x3 * d1 <= x1 * d3 {
      MulLe(x3 * d1, x1 * d3, d2);
    }
  }

  lemma RatTrans(a: Number, b: Number, c: Number)
    requires ValidNumber(a) && ValidNumber(b) && ValidNumber(c)
    ensures RatLe(a, b) && RatLe(b, c) ==> RatLe(a, c)
    ensures RatLt(a, b) && RatLe(b, c) ==> RatLt(a, c)
    ensures RatLe(a, b) && RatLt(b, c) ==> RatLt(a, c)
  {
    if RatLe(a, b) && RatLe(b, c) {
      CrossLe(a.num, a.den, b.num, b.den, c.num, c.den);
    }
    if RatLt(a, b) && RatLe(b, c) {
      CrossLtLe(a.num, a.den, b.num, b.den, c.num, c.den);
    }
    if RatLe(a, b) && RatLt(b, c) {
      CrossLeLt(a.num, a.den, b.num, b.den, c.num, c.den);
    }
  }

  // Number types

  datatype NumberDomain = Rational | Integer

  /** A lower bound; the constructors are in the order the source declares
    * them, which is the order its derived comparison uses. */
  datatype MinBound = NoMin | MinExcluded(value: Number) | MinIncluded(value: Number)

  /** An upper bound, likewise in declaration order. */
  datatype MaxBound = MaxIncluded(value: Number) | MaxExcluded(value: Number) | NoMax

  /** A number type: a domain and two bounds. */
  datatype NumberType = NumberType(domain: NumberDomain, min: MinBound, max: MaxBound)

  predicate ValidMin(b: MinBound) {
    !b.NoMin? ==> ValidNumber(b.value)
  }

  predicate ValidMax(b: MaxBound) {
    !b.NoMax? ==> ValidNumber(b.value)
  }

  predicate ValidNumberType(t: NumberType) {
    ValidMin(t.min) && ValidMax(t.max)
  }

  predicate MinAdmits(b: MinBound, x: Number) {
    match b
    case NoMin => true
    case MinExcluded(n) => RatLt(n, x)
    case MinIncluded(n) => RatLe(n, x)
  }

  predicate MaxAdmits(b: MaxBound, x: Number) {
    match b
    case NoMax => true
    case MaxExcluded(n) => RatLt(x, n)
    case MaxIncluded(n) => RatLe(x, n)
  }

  /** The numbers a number type stands for. */
  predicate Admits(t: NumberType, x: Number) {
    (t.domain == Integer ==> IsInteger(x)) && MinAdmits(t.min, x) && MaxAdmits(t.max, x)
  }

  /** The type of exactly one number; its domain is the integers when the
    * number is one. */
  function NumberSingleton(v: Number): (r: NumberType)
    requires ValidNumber(v)
    ensures ValidNumberType(r) && Admits(r, v)
    ensures r.domain == Integer <==> IsInteger(v)
  {
    NumberType(if IsInteger(v) then Integer else Rational, MinIncluded(v), MaxIncluded(v))
  }

  /** The number a type stands for alone, when both bounds include it. */
  function NumberAsSingleton(t: NumberType): (r: Option<Number>)
    requires ValidNumberType(t)
    ensures r.Some? ==> forall x :: ValidNumber(x) && Admits(t, x) ==> RatLe(x, r.value) && RatLe(r.value, x)
  {
    match (t.min, t.max)
    case (MinIncluded(a), MaxIncluded(b)) => if a == b then Some(a) else None
    case _ => None
  }

  /** A singleton type gives its number back. */
  lemma SingletonRoundTrip(v: Number)
    requires ValidNumber(v)
    ensures NumberAsSingleton(NumberSingleton(v)) == Some(v)
  {
  }

  /** Normalizes a lower bound for a domain as the source does: an exclusive
    * bound becomes the inclusive bound one above it among the integers. */
  function NormalizeMinAsWritten(b: MinBound, d: NumberDomain): (r: MinBound)
    requires ValidMin(b)
    ensures ValidMin(r)
    ensures d == Rational || !b.MinExcluded? ==> r == b
  {
    if d == Integer && b.MinExcluded? then
      ShiftKeepsLowest(b.value, 1);
      MinIncluded(Number(b.value.num + b.value.den, b.value.den))
    else b
  }

  function NormalizeMaxAsWritten(b: MaxBound, d: NumberDomain): (r: MaxBound)
    requires ValidMax(b)
    ensures ValidMax(r)
    ensures d == Rational || !b.MaxExcluded? ==> r == b
  {
    if d == Integer && b.MaxExcluded? then
      ShiftKeepsLowest(b.value, -1);
      MaxIncluded(Number(b.value.num - b.value.den, b.value.den))
    else b
  }

  /** As written, the exclusive lower bound 1/2 in the integer domain becomes
    * 3/2, which no longer admits the integer 1. */
  lemma NormalizeLosesIntegers()
    ensures MinAdmits(MinExcluded(Number(1, 2)), Number(1, 1))
    ensures NormalizeMinAsWritten(MinExcluded(Number(1, 2)), Integer) == MinIncluded(Number(3, 2))
    ensures !MinAdmits(MinIncluded(Number(3, 2)), Number(1, 1))
  {
  }

  function Floor(n: Number): int
    requires ValidNumber(n)
  {
    n.num / n.den
  }

  function Ceil(n: Number): int
    requires ValidNumber(n)
  {
    -((-n.num) / n.den)
  }

  /** Normalizes a lower bound: in the integer domain an exclusive bound
    * becomes the least integer above it, included. */
  function NormalizeMin(b: MinBound, d: NumberDomain): (r: MinBound)
    requires ValidMin(b)
    ensures ValidMin(r) && (d == Integer ==> !r.MinExcluded?)
    ensures forall x: int :: MinAdmits(r, Number(x, 1)) <==> MinAdmits(b, Number(x, 1))
  {
    if d == Integer && b.MinExcluded? then
      FloorBelow(b.value);
      MinIncluded(Number(Floor(b.value) + 1, 1))
    else b
  }

  /** Normalizes an upper bound: in the integer domain an exclusive bound
    * becomes the greatest integer below it, included. */
  function NormalizeMax(b: MaxBound, d: NumberDomain): (r: MaxBound)
    requires ValidMax(b)
    ensures ValidMax(r) && (d == Integer ==> !r.MaxExcluded?)
    ensures forall x: int :: MaxAdmits(r, Number(x, 1)) <==> MaxAdmits(b, Number(x, 1))
  {
    if d == Integer && b.MaxExcluded? then
      CeilAbove(b.value);
      MaxIncluded(Number(Ceil(b.value) - 1, 1))
    else b
  }

  /** An integer is above a rational exactly when it is above its floor. */
  lemma FloorBelow(n: Number)
    requires ValidNumber(n)
    ensures forall x: int :: RatLt(n, Number(x, 1)) <==> x >= Floor(n) + 1
  {
    var q, r := n.num / n.den, n.num % n.den;
    assert n.num == q * n.den + r && 0 <= r < n.den;
    forall x: int
      ensures RatLt(n, Number(x, 1)) <==> x >= q + 1
    {
      if x >= q + 1 {
        MulLe(q + 1, x, n.den);
      } else {
        MulLe(x, q, n.den);
      }
    }
  }

  /** An integer is below a rational exactly when it is below its ceiling. */
  lemma CeilAbove(n: Number)
    requires ValidNumber(n)
    ensures forall x: int :: RatLt(Number(x, 1), n) <==> x <= Ceil(n) - 1
  {
    var m := Number(-n.num, n.den);
    FloorBelow(m);
    assert Ceil(n) == -Floor(m);
    forall x: int
      ensures RatLt(Number(x, 1), n) <==> x <= Ceil(n) - 1
    {
      assert RatLt(Number(x, 1), n) <==> x * n.den < n.num;
      assert RatLt(m, Number(-x, 1)) <==> -n.num < (-x) * n.den;
      assert (-x) * n.den == -(x * n.den);
    }
  }

  /** For an integer bound the normalization as written is the intended
    * one. */
  lemma NormalizeAgreesOnIntegers(b: MinBound, c: MaxBound, d: NumberDomain)
    requires ValidMin(b) && ValidMax(c)
    requires !b.NoMin? ==> b.value.den == 1
    requires !c.NoMax? ==> c.value.den == 1
    ensures NormalizeMinAsWritten(b, d) == NormalizeMin(b, d)
    ensures NormalizeMaxAsWritten(c, d) == NormalizeMax(c, d)
  {
  }

  // Comparing number types

  /** The numeric order of two rationals. */
  function RatCmp(a: Number, b: Number): (r: Ordering)
    ensures r == Less <==> RatLt(a, b)
    ensures r == Greater <==> RatLt(b, a)
  {
    if RatLt(a, b) then Less else if RatLt(b, a) then Greater else Equal
  }

  function MinIndex(b: MinBound): nat {
    match b
    case NoMin => 0
    case MinExcluded(_) => 1
    case MinIncluded(_) => 2
  }

  function MaxIndex(b: MaxBound): nat {
    match b
    case MaxIncluded(_) => 0
    case MaxExcluded(_) => 1
    case NoMax => 2
  }

  function CmpNat(i: nat, j: nat): Ordering {
    if i < j then Less else if i > j then Greater else Equal
  }

  /** The derived comparison of two lower bounds: by constructor, then by
    * value. */
  function DerivedMinCmp(a: MinBound, b: MinBound): (r: Ordering)
    ensures MinIndex(a) != MinIndex(b) ==> r == CmpNat(MinIndex(a), MinIndex(b))
  {
    if MinIndex(a) != MinIndex(b) || a.NoMin? then CmpNat(MinIndex(a), MinIndex(b))
    else RatCmp(a.value, b.value)
  }

  function DerivedMaxCmp(a: MaxBound, b: MaxBound): (r: Ordering)
    ensures MaxIndex(a) != MaxIndex(b) ==> r == CmpNat(MaxIndex(a), MaxIndex(b))
  {
    if MaxIndex(a) != MaxIndex(b) || a.NoMax? then CmpNat(MaxIndex(a), MaxIndex(b))
    else RatCmp(a.value, b.value)
  }

  /** Whether the domain `da` holds every number of `db`. */
  predicate WiderDomain(da: NumberDomain, db: NumberDomain) {
    da == Rational || db == Integer
  }

  /** The subtype comparison of two number types from the comparisons of
    * their bounds, where `Less` means a looser lower bound and `Greater` a
    * looser upper bound. */
  function BoundsCmp(minCmp: Ordering, maxCmp: Ordering, da: NumberDomain, db: NumberDomain): (r: Option<Ordering>)
    ensures r == Some(Greater) ==> minCmp != Greater && maxCmp != Less && WiderDomain(da, db)
    ensures r == Some(Less) ==> minCmp != Less && maxCmp != Greater && WiderDomain(db, da)
    ensures r == Some(Equal) ==> minCmp == Equal && maxCmp == Equal && da == db
  {
    match minCmp
    case Less =>
      if maxCmp == Less then None
      else if WiderDomain(da, db) then Some(Greater) else None
    case Equal =>
      (match maxCmp
       case Less => if WiderDomain(db, da) then Some(Less) else None
       case Equal =>
         if da == db then Some(Equal)
         else if da == Rational then Some(Greater)
         else None
       case Greater => if WiderDomain(da, db) then Some(Greater) else None)
    case Greater =>
      if maxCmp == Greater then None
      else if WiderDomain(db, da) then Some(Less) else None
  }

  /** The number type comparison as written, over the derived comparison of
    * bounds. */
  function NumberCmpAsWritten(a: NumberType, b: NumberType): Option<Ordering> {
    BoundsCmp(DerivedMinCmp(a.min, b.min), DerivedMaxCmp(a.max, b.max), a.domain, b.domain)
  }

  /** As written, `x > 1` compares greater than `x >= 1`: the derived order
    * puts every exclusive lower bound below every inclusive one. */
  lemma NumberCmpAsWrittenUnsound()
    ensures NumberCmpAsWritten(NumberType(Rational, MinExcluded(Number(1, 1)), NoMax),
                               NumberType(Rational, MinIncluded(Number(1, 1)), NoMax)) == Some(Greater)
    ensures Admits(NumberType(Rational, MinIncluded(Number(1, 1)), NoMax), Number(1, 1))
    ensures !Admits(NumberType(Rational, MinExcluded(Number(1, 1)), NoMax), Number(1, 1))
  {
  }

  /** Compares lower bounds by what they admit: `Less` when `a` admits more. */
  function MinCmp(a: MinBound, b: MinBound): Ordering {
    match (a, b)
    case (NoMin, NoMin) => Equal
    case (NoMin, _) => Less
    case (_, NoMin) => Greater
    case _ =>
      var c := RatCmp(a.value, b.value);
      if c != Equal then c
      else if a.MinIncluded? == b.MinIncluded? then Equal
      else if a.MinIncluded? then Less
      else Greater
  }

  /** Compares upper bounds by what they admit: `Greater` when `a` admits
    * more. */
  function MaxCmp(a: MaxBound, b: MaxBound): Ordering {
    match (a, b)
    case (NoMax, NoMax) => Equal
    case (NoMax, _) => Greater
    case (_, NoMax) => Less
    case _ =>
      var c := RatCmp(a.value, b.value);
      if c != Equal then c
      else if a.MaxIncluded? == b.MaxIncluded? then Equal
      else if a.MaxIncluded? then Greater
      else Less
  }

  /** A lower bound compared `Less` or `Equal` admits whatever the other
    * does. */
  lemma MinCmpSound(a: MinBound, b: MinBound, x: Number)
    requires ValidMin(a) && ValidMin(b) && ValidNumber(x)
    ensures MinCmp(a, b) != Greater && MinAdmits(b, x) ==> MinAdmits(a, x)
    ensures MinCmp(a, b) != Less && MinAdmits(a, x) ==> MinAdmits(b, x)
  {
    if !a.NoMin? && !b.NoMin? {
      RatTrans(a.value, b.value, x);
      RatTrans(b.value, a.value, x);
    }
  }

  lemma MaxCmpSound(a: MaxBound, b: MaxBound, x: Number)
    requires ValidMax(a) && ValidMax(b) && ValidNumber(x)
    ensures MaxCmp(a, b) != Less && MaxAdmits(b, x) ==> MaxAdmits(a, x)
    ensures MaxCmp(a, b) != Greater && MaxAdmits(a, x) ==> MaxAdmits(b, x)
  {
    if !a.NoMax? && !b.NoMax? {
      RatTrans(x, b.value, a.value);
      RatTrans(x, a.value, b.value);
    }
  }

  /** The subtype comparison of number types, over bounds compared by what
    * they admit. */
  function NumberCmp(a: NumberType, b: NumberType): Option<Ordering> {
    BoundsCmp(MinCmp(a.min, b.min), MaxCmp(a.max, b.max), a.domain, b.domain)
  }

  /** A number type compared greater or equal admits every number the other
    * admits, and one compared less or equal admits only numbers the other
    * does. */
  lemma NumberCmpSound(a: NumberType, b: NumberType, x: Number)
    requires ValidNumberType(a) && ValidNumberType(b) && ValidNumber(x)
    ensures NumberCmp(a, b) in {Some(Greater), Some(Equal)} && Admits(b, x) ==> Admits(a, x)
    ensures NumberCmp(a, b) in {Some(Less), Some(Equal)} && Admits(a, x) ==> Admits(b, x)
  {
    MinCmpSound(a.min, b.min, x);
    MaxCmpSound(a.max, b.max, x);
  }

  /** With bounds compared by what they admit, `x > 1` is below `x >= 1`. */
  lemma NumberCmpExclusive()
    ensures NumberCmp(NumberType(Rational, MinExcluded(Number(1, 1)), NoMax),
                      NumberType(Rational, MinIncluded(Number(1, 1)), NoMax)) == Some(Less)
  {
  }

  // Text string types

  /** The language a text automaton accepts: every string, or a finite set
    * of them. */
  datatype Language = AllText | Words(words: set<string>)

  /** A text string type: its automaton, as the language it accepts and a
    * `shape` standing for the rest of its structure, so that two automata
    * accepting the same language may still differ as values. */
  datatype TextType = TextType(language: Language, shape: nat)

  predicate TextAccepts(t: TextType, w: string) {
    t.language.AllText? || w in t.language.words
  }

  /** Every string of `b` is one of `a`. */
  ghost predicate TextIncludes(a: TextType, b: TextType) {
    forall w :: TextAccepts(b, w) ==> TextAccepts(a, w)
  }

  lemma OneElement(ws: set<string>, a: string, b: string)
    requires |ws| == 1 && a in ws && b in ws
    ensures a == b
  {
    assert |ws - {a}| == 0;
    assert ws - {a} == {};
  }

  /** The one string a type accepts, when it accepts exactly one. */
  function TextAsSingleton(t: TextType): (r: Option<string>)
    ensures r.Some? ==> forall w :: TextAccepts(t, w) <==> w == r.value
  {
    if t.language.Words? && |t.language.words| == 1 then
      var w :| w in t.language.words;
      assert forall v :: v in t.language.words ==> v == w by {
        forall v | v in t.language.words {
          OneElement(t.language.words, v, w);
        }
      }
      Some(w)
    else None
  }

  /** The text type comparison as written: a singleton against a
    * non-singleton is checked against its own automaton, and two
    * non-singletons are equal only when their automata are the same value. */
  function TextCmpAsWritten(a: TextType, b: TextType): Option<Ordering> {
    match (TextAsSingleton(a), TextAsSingleton(b))
    case (Some(x), Some(y)) => if x == y then Some(Equal) else None
    case (None, Some(y)) => if TextAccepts(a, y) then Some(Greater) else None
    case (Some(x), None) => if TextAccepts(a, x) then Some(Less) else None
    case (None, None) => if a == b then Some(Equal) else None
  }

  /** As written, the singleton "x" compares less than the language
    * {"y", "z"}, which does not accept it. */
  lemma TextCmpAsWrittenUnsound()
    ensures TextCmpAsWritten(TextType(Words({"x"}), 0), TextType(Words({"y", "z"}), 0)) == Some(Less)
    ensures !TextAccepts(TextType(Words({"y", "z"}), 0), "x")
  {
    assert TextAsSingleton(TextType(Words({"x"}), 0)) == Some("x");
    assert "y" != "z";
    assert |{"y", "z"}| == 2;
  }

  /** The text type comparison: a singleton is less than a type that accepts
    * it; two non-singletons are still compared as automata. */
  function TextCmp(a: TextType, b: TextType): Option<Ordering> {
    match (TextAsSingleton(a), TextAsSingleton(b))
    case (Some(x), Some(y)) => if x == y then Some(Equal) else None
    case (None, Some(y)) => if TextAccepts(a, y) then Some(Greater) else None
    case (Some(x), None) => if TextAccepts(b, x) then Some(Less) else None
    case (None, None) => if a == b then Some(Equal) else None
  }

  /** Two non-singleton automata are compared as values, not by language:
    * different automata for the same language are incomparable, although
    * each accepts every string of the other. */
  lemma TextCmpStructural(l: Language, s1: nat, s2: nat)
    requires s1 != s2 && (l.Words? ==> |l.words| != 1)
    ensures TextIncludes(TextType(l, s1), TextType(l, s2)) && TextIncludes(TextType(l, s2), TextType(l, s1))
    ensures TextCmpAsWritten(TextType(l, s1), TextType(l, s2)) == None
    ensures TextCmp(TextType(l, s1), TextType(l, s2)) == None
  {
  }

  /** Text types compare consistently with the languages they accept. */
  lemma TextCmpSound(a: TextType, b: TextType)
    ensures TextCmp(a, b) in {Some(Greater), Some(Equal)} ==> TextIncludes(a, b)
    ensures TextCmp(a, b) in {Some(Less), Some(Equal)} ==> TextIncludes(b, a)
  {
  }

  // Literal types

  datatype LiteralType =
    | UnitType
    | BooleanLit(boolean: BooleanType)
    | NumberLit(number: NumberType)
    | BytesLit
    | TextLit(text: TextType)

  /** Whether a literal type holds a literal: the kinds must agree, and a
    * boolean must be the constant if there is one.  Numbers and text are
    * held whatever the bounds or the automaton. */
  predicate LiteralContains(t: LiteralType, l: Literal) {
    match (t, l)
    case (UnitType, Unit) => true
    case (BooleanLit(bt), Boolean(b)) => BooleanContains(bt, b)
    case (NumberLit(_), Numeric(_)) => true
    case (BytesLit, ByteString(_)) => true
    case (TextLit(_), TextString(_)) => true
    case _ => false
  }

  /** Literal types of different kinds are incomparable. */
  function LiteralCmp(a: LiteralType, b: LiteralType): (r: Option<Ordering>)
    ensures r.Some? ==> (a.UnitType? == b.UnitType? && a.BooleanLit? == b.BooleanLit?
      && a.NumberLit? == b.NumberLit? && a.BytesLit? == b.BytesLit? && a.TextLit? == b.TextLit?)
  {
    match (a, b)
    case (UnitType, UnitType) => Some(Equal)
    case (BooleanLit(x), BooleanLit(y)) => BooleanCmp(x, y)
    case (NumberLit(x), NumberLit(y)) => NumberCmpAsWritten(x, y)
    case (BytesLit, BytesLit) => Some(Equal)
    case (TextLit(x), TextLit(y)) => TextCmpAsWritten(x, y)
    case _ => None
  }

  /** When the bounds of two number types are of the same kinds, the
    * derived order on bounds agrees with the order by what they admit. */
  lemma NumberCmpAsWrittenAgrees(a: NumberType, b: NumberType)
    requires MinIndex(a.min) == MinIndex(b.min) && MaxIndex(a.max) == MaxIndex(b.max)
    ensures NumberCmpAsWritten(a, b) == NumberCmp(a, b)
  {
    assert DerivedMinCmp(a.min, b.min) == MinCmp(a.min, b.min);
    assert DerivedMaxCmp(a.max, b.max) == MaxCmp(a.max, b.max);
  }

  /** Unless a singleton is compared with a type that is not one, the text
    * comparison as written is the one by languages. */
  lemma TextCmpAsWrittenAgrees(a: TextType, b: TextType)
    requires TextAsSingleton(a).None? || TextAsSingleton(b).Some?
    ensures TextCmpAsWritten(a, b) == TextCmp(a, b)
  {
  }

  /** Literal types of the same kind, numbers with bounds of the same kinds
    * and texts not comparing a singleton with a non-singleton compare
    * consistently with what they hold. */
  lemma LiteralCmpSound(a: LiteralType, b: LiteralType, x: Number)
    requires a.NumberLit? && b.NumberLit? ==> ValidNumberType(a.number) && ValidNumberType(b.number) && ValidNumber(x)
    requires a.NumberLit? && b.NumberLit? ==>
      MinIndex(a.number.min) == MinIndex(b.number.min) && MaxIndex(a.number.max) == MaxIndex(b.number.max)
    requires a.TextLit? && b.TextLit? ==> TextAsSingleton(a.text).None? || TextAsSingleton(b.text).Some?
    ensures a.NumberLit? && b.NumberLit? && LiteralCmp(a, b) in {Some(Greater), Some(Equal)} && Admits(b.number, x) ==> Admits(a.number, x)
    ensures a.NumberLit? && b.NumberLit? && LiteralCmp(a, b) in {Some(Less), Some(Equal)} && Admits(a.number, x) ==> Admits(b.number, x)
    ensures a.TextLit? && b.TextLit? && LiteralCmp(a, b) in {Some(Greater), Some(Equal)} ==> TextIncludes(a.text, b.text)
    ensures a.TextLit? && b.TextLit? && LiteralCmp(a, b) in {Some(Less), Some(Equal)} ==> TextIncludes(b.text, a.text)
  {
    if a.NumberLit? && b.NumberLit? {
      NumberCmpAsWrittenAgrees(a.number, b.number);
      NumberCmpSound(a.number, b.number, x);
    }
    if a.TextLit? && b.TextLit? {
      TextCmpAsWrittenAgrees(a.text, b.text);
      TextCmpSound(a.text, b.text);
    }
  }

  // Types

  /** A type: struct fields are keyed by the type of their key, enum variants
    * by name, and a list has a prefix of item types and an optional type for
    * the items after it. */
  datatype Type<R> =
    | ResourceOf(resource: ResourceType<R>)
    | LiteralOf(literal: LiteralType)
    | StructOf(fields: seq<FieldEntry<R>>)
    | EnumOf(variants: seq<EnumVariant<R>>)
    | ListOf(prefix: seq<Type<R>>, rest: Option<Type<R>>)
    | Any

  datatype Field<R> = Field(ty: Type<R>, required: bool)

  /** A struct field under the type of its key. */
  datatype FieldEntry<R> = FieldEntry(key: Type<R>, field: Field<R>)

  /** A named enum variant. */
  datatype EnumVariant<R> = EnumVariant(name: string, ty: Type<R>)

  /** Tree values: resources, literals, maps (entries in key order) and
    * lists. */
  datatype TreeValue<R> =
    | ResourceValue(resource: R)
    | LiteralValue(literal: Literal)
    | MapValue(entries: seq<(TreeValue<R>, TreeValue<R>)>)
    | ListValue(items: seq<TreeValue<R>>)

  /** The number of type nodes in a type; comparisons recurse on it. */
  function Size<R>(t: Type<R>): (r: nat)
    ensures r >= 1
    decreases t
  {
    match t
    case StructOf(fs) => 1 + FieldsSize(fs)
    case EnumOf(vs) => 1 + VariantsSize(vs)
    case ListOf(p, rest) => 1 + TypesSize(p) + (match rest case Some(x) => Size(x) case None => 0)
    case _ => 1
  }

  function FieldsSize<R>(fs: seq<FieldEntry<R>>): nat
    decreases fs
  {
    if fs == [] then 0 else EntrySize(fs[0]) + FieldsSize(fs[1..])
  }

  function EntrySize<R>(e: FieldEntry<R>): nat {
    Size(e.key) + Size(e.field.ty)
  }

  function VariantsSize<R>(vs: seq<EnumVariant<R>>): nat
    decreases vs
  {
    if vs == [] then 0 else Size(vs[0].ty) + VariantsSize(vs[1..])
  }

  function TypesSize<R>(ts: seq<Type<R>>): nat
    decreases ts
  {
    if ts == [] then 0 else Size(ts[0]) + TypesSize(ts[1..])
  }

  lemma {:induction false} FieldsSizeElem<R>(fs: seq<FieldEntry<R>>, i: nat)
    requires i < |fs|
    ensures Size(fs[i].key) + Size(fs[i].field.ty) <= FieldsSize(fs)
    decreases i
  {
    if i > 0 {
      FieldsSizeElem(fs[1..], i - 1);
    }
  }

  lemma FieldsSizeAll<R>(fs: seq<FieldEntry<R>>)
    ensures forall i :: 0 <= i < |fs| ==> Size(fs[i].key) + Size(fs[i].field.ty) <= FieldsSize(fs)
  {
    forall i | 0 <= i < |fs|
      ensures Size(fs[i].key) + Size(fs[i].field.ty) <= FieldsSize(fs)
    {
      FieldsSizeElem(fs, i);
    }
  }

  lemma {:induction false} VariantsSizeElem<R>(vs: seq<EnumVariant<R>>, i: nat)
    requires i < |vs|
    ensures Size(vs[i].ty) <= VariantsSize(vs)
    decreases i
  {
    if i > 0 {
      VariantsSizeElem(vs[1..], i - 1);
    }
  }

  lemma {:induction false} TypesSizeElem<R>(ts: seq<Type<R>>, i: nat)
    requires i < |ts|
    ensures Size(ts[i]) <= TypesSize(ts)
    decreases i
  {
    if i > 0 {
      TypesSizeElem(ts[1..], i - 1);
    }
  }

  // Lists

  /** The type of the item at index `i`: the prefix's, then the rest's. */
  function ItemType<R>(l: Type<R>, i: nat): (r: Option<Type<R>>)
    requires l.ListOf?
    ensures i < |l.prefix| ==> r == Some(l.prefix[i])
    ensures i >= |l.prefix| ==> r == l.rest
  {
    if i < |l.prefix| then Some(l.prefix[i]) else l.rest
  }

  function MinLen<R>(l: Type<R>): nat
    requires l.ListOf?
  {
    |l.prefix|
  }

  /** The greatest length of the list, when it has a bound: exactly when
    * every index past the prefix has no item type. */
  function MaxLen<R>(l: Type<R>): (r: Option<nat>)
    requires l.ListOf?
    ensures r.None? <==> l.rest.Some?
    ensures r.Some? ==> r.value == MinLen(l) && forall i: nat :: ItemType(l, i).Some? <==> i < r.value
  {
    if l.rest.Some? then None else Some(|l.prefix|)
  }

  /** The type of every item of a list with no prefix. */
  function AsUniform<R>(l: Type<R>): (r: Option<Type<R>>)
    requires l.ListOf?
    ensures r.Some? ==> forall i: nat :: ItemType(l, i) == r
  {
    if l.prefix == [] then l.rest else None
  }

  // Comparing types

  /** Whether `a` is a subtype of `b`. */
  predicate IsSubtype<R(==)>(a: Type<R>, b: Type<R>)
    decreases Size(a) + Size(b), 4
  {
    TypeCmp(a, b) in {Some(Less), Some(Equal)}
  }

  /** The subtype comparison: `Any` is above everything, types of the same
    * kind compare by kind, and an enum compares through its variants. */
  function TypeCmp<R(==)>(a: Type<R>, b: Type<R>): Option<Ordering>
    decreases Size(a) + Size(b), 3
  {
    match (a, b)
    case (Any, Any) => Some(Equal)
    case (Any, _) => Some(Greater)
    case (_, Any) => Some(Less)
    case (ResourceOf(x), ResourceOf(y)) => ResourceCmp(x, y)
    case (LiteralOf(x), LiteralOf(y)) => LiteralCmp(x, y)
    case (ListOf(_, _), ListOf(_, _)) => ListLoop(a, b, 0, Equal)
    case (StructOf(_), StructOf(_)) => StructCmp(a, b)
    case (EnumOf(_), _) => EnumCmp(a, b)
    case (_, EnumOf(_)) =>
      (match EnumCmp(b, a)
       case Some(o) => Some(Reverse(o))
       case None => None)
    case _ => None
  }

  /** The comparison of two lists at index `i`: items of both prefixes, or a
    * prefix item against the other's rest, which must exist. */
  function ItemCmp<R(==)>(a: Type<R>, b: Type<R>, i: nat): Option<Ordering>
    requires a.ListOf? && b.ListOf? && (i < |a.prefix| || i < |b.prefix|)
    decreases Size(a) + Size(b), 1
  {
    if i < |a.prefix| && i < |b.prefix| then
      TypesSizeElem(a.prefix, i);
      TypesSizeElem(b.prefix, i);
      TypeCmp(a.prefix[i], b.prefix[i])
    else if i < |a.prefix| then
      TypesSizeElem(a.prefix, i);
      (match b.rest
       case None => None
       case Some(r) => TypeCmp(a.prefix[i], r))
    else
      TypesSizeElem(b.prefix, i);
      (match a.rest
       case None => None
       case Some(r) => TypeCmp(r, b.prefix[i]))
  }

  /** The comparison of the types of the items past both prefixes. */
  function RestCmp<R(==)>(a: Type<R>, b: Type<R>): Option<Ordering>
    requires a.ListOf? && b.ListOf?
    decreases Size(a) + Size(b), 1
  {
    match (a.rest, b.rest)
    case (Some(x), Some(y)) => TypeCmp(x, y)
    case (Some(_), None) => Some(Greater)
    case (None, Some(_)) => Some(Less)
    case (None, None) => Some(Equal)
  }

  /** The list comparison from index `i` on, `cmp` being the comparison of
    * the items before it. */
  function ListLoop<R(==)>(a: Type<R>, b: Type<R>, i: nat, cmp: Ordering): Option<Ordering>
    requires a.ListOf? && b.ListOf?
    decreases Size(a) + Size(b), 2, |a.prefix| + |b.prefix| - i
  {
    if i >= |a.prefix| && i >= |b.prefix| then RefineCmp(cmp, RestCmp(a, b))
    else
      match RefineCmp(cmp, ItemCmp(a, b, i))
      case None => None
      case Some(c) => ListLoop(a, b, i + 1, c)
  }

  /** The comparisons a list comparison refines, in order. */
  function ListComparisons<R(==)>(a: Type<R>, b: Type<R>, i: nat): (r: seq<Option<Ordering>>)
    requires a.ListOf? && b.ListOf?
    ensures |r| >= 1 && r[|r| - 1] == RestCmp(a, b)
    decreases |a.prefix| + |b.prefix| - i
  {
    if i >= |a.prefix| && i >= |b.prefix| then [RestCmp(a, b)]
    else [ItemCmp(a, b, i)] + ListComparisons(a, b, i + 1)
  }

  /** Two lists compare as every item position, then the rest, refined in
    * turn: so they are equal when all are, and strictly ordered when all
    * agree with one strict comparison. */
  lemma {:induction false} ListCmpIsRefineAll<R>(a: Type<R>, b: Type<R>, i: nat, cmp: Ordering)
    requires a.ListOf? && b.ListOf?
    ensures ListLoop(a, b, i, cmp) == RefineAll(cmp, ListComparisons(a, b, i))
    decreases |a.prefix| + |b.prefix| - i
  {
    var cs := ListComparisons(a, b, i);
    if i >= |a.prefix| && i >= |b.prefix| {
      assert cs == [RestCmp(a, b)];
      RefineAllLast(cmp, RestCmp(a, b));
    } else {
      var item := ItemCmp(a, b, i);
      var later := ListComparisons(a, b, i + 1);
      assert cs == [item] + later;
      RefineAllCons(cmp, item, later);
      match RefineCmp(cmp, item)
      case None =>
      case Some(c) => ListCmpIsRefineAll(a, b, i + 1, c);
    }
  }

  lemma RefineAllLast(cmp: Ordering, x: Option<Ordering>)
    ensures RefineAll(cmp, [x]) == RefineCmp(cmp, x)
  {
    assert [x][1..] == [];
  }

  lemma RefineAllCons(cmp: Ordering, x: Option<Ordering>, cs: seq<Option<Ordering>>)
    ensures RefineCmp(cmp, x).None? ==> RefineAll(cmp, [x] + cs).None?
    ensures RefineCmp(cmp, x).Some? ==> RefineAll(cmp, [x] + cs) == RefineAll(RefineCmp(cmp, x).value, cs)
  {
    assert ([x] + cs)[0] == x && ([x] + cs)[1..] == cs;
  }

  /** A struct compares by the subtype relation both ways. */
  function StructCmp<R(==)>(a: Type<R>, b: Type<R>): Option<Ordering>
    requires a.StructOf? && b.StructOf?
    decreases Size(a) + Size(b), 2
  {
    FieldsSizeAll(a.fields);
    FieldsSizeAll(b.fields);
    if StructSub(a, b, 0, b.fields) then
      if StructSub(b, a, 0, a.fields) then Some(Equal) else Some(Less)
    else if StructSub(b, a, 0, a.fields) then Some(Greater)
    else None
  }

  /** Whether the fields of `a` from index `i` on each match a field of `b`
    * they are a subfield of, taking matches first from `remaining`, and
    * every unmatched field of `remaining` is optional. */
  predicate StructSub<R(==)>(a: Type<R>, b: Type<R>, i: nat, remaining: seq<FieldEntry<R>>)
    requires a.StructOf? && b.StructOf? && i <= |a.fields|
    requires forall j :: 0 <= j < |remaining| ==> Size(remaining[j].key) + Size(remaining[j].field.ty) <= FieldsSize(b.fields)
    decreases Size(a) + Size(b), 1, |a.fields| - i
  {
    if i == |a.fields| then forall j :: 0 <= j < |remaining| ==> !remaining[j].field.required
    else
      FieldsSizeElem(a.fields, i);
      assert Size(a) == 1 + FieldsSize(a.fields) && Size(b) == 1 + FieldsSize(b.fields);
      var key, field := a.fields[i].key, a.fields[i].field;
      assert forall k :: 0 <= k < |remaining| ==> Size(remaining[k].key) < Size(b) by {
        forall k | 0 <= k < |remaining| ensures Size(remaining[k].key) < Size(b) {
          assert Size(remaining[k].field.ty) >= 1;
        }
      }
      match FirstKeyMatch(a, b, key, remaining, 0)
      case Some(j) =>
        IsSubfield(a, b, field, remaining[j].field)
        && StructSub(a, b, i + 1, remaining[..j] + remaining[j + 1..])
      case None =>
        FieldsSizeAll(b.fields);
        match FirstKeyMatch(a, b, key, b.fields, 0)
        case Some(j) =>
          IsSubfield(a, b, field, b.fields[j].field) && StructSub(a, b, i + 1, remaining)
        case None => false
  }

  /** The index of the first candidate whose key `key` is a subtype of. */
  function FirstKeyMatch<R(==)>(a: Type<R>, b: Type<R>, key: Type<R>, cands: seq<FieldEntry<R>>, j: nat): (r: Option<nat>)
    requires a.StructOf? && b.StructOf? && Size(key) < Size(a) && j <= |cands|
    requires forall k :: 0 <= k < |cands| ==> Size(cands[k].key) < Size(b)
    ensures r.Some? ==> j <= r.value < |cands| && IsSubtype(key, cands[r.value].key)
    ensures r.Some? ==> forall k :: j <= k < r.value ==> !IsSubtype(key, cands[k].key)
    ensures r.None? ==> forall k :: j <= k < |cands| ==> !IsSubtype(key, cands[k].key)
    decreases Size(a) + Size(b), 0, |cands| - j
  {
    if j == |cands| then None
    else if IsSubtype(key, cands[j].key) then Some(j)
    else FirstKeyMatch(a, b, key, cands, j + 1)
  }

  /** A field is a subfield of another when it is required whenever the other
    * is, and its type is a subtype of the other's. */
  predicate IsSubfield<R(==)>(a: Type<R>, b: Type<R>, f: Field<R>, g: Field<R>)
    requires a.StructOf? && b.StructOf?
    requires Size(f.ty) < Size(a) && Size(g.ty) < Size(b)
    decreases Size(a) + Size(b), 0
  {
    (!g.required || f.required) && IsSubtype(f.ty, g.ty)
  }

  /** An enum compared with another enum refines the comparisons of every
    * pair of variants; with another type, it is less when every variant is
    * less or equal, and otherwise greater or equal as some variant is. */
  function EnumCmp<R(==)>(a: Type<R>, b: Type<R>): Option<Ordering>
    requires a.EnumOf? && !b.Any?
    decreases Size(a) + Size(b), 2
  {
    if b.EnumOf? then EnumPairs(a, b, 0, 0, Equal)
    else EnumVariants(a, b, 0, None, true)
  }

  function EnumPairs<R(==)>(a: Type<R>, b: Type<R>, i: nat, j: nat, cmp: Ordering): Option<Ordering>
    requires a.EnumOf? && b.EnumOf? && i <= |a.variants| && j <= |b.variants|
    decreases Size(a) + Size(b), 1, |a.variants| - i, |b.variants| - j
  {
    if i == |a.variants| then Some(cmp)
    else if j == |b.variants| then EnumPairs(a, b, i + 1, 0, cmp)
    else
      VariantsSizeElem(a.variants, i);
      VariantsSizeElem(b.variants, j);
      match RefineCmp(cmp, TypeCmp(a.variants[i].ty, b.variants[j].ty))
      case None => None
      case Some(c) => EnumPairs(a, b, i, j + 1, c)
  }

  function EnumVariants<R(==)>(a: Type<R>, b: Type<R>, i: nat, cmp: Option<Ordering>, leq: bool): Option<Ordering>
    requires a.EnumOf? && !b.Any? && !b.EnumOf? && i <= |a.variants|
    decreases Size(a) + Size(b), 1, |a.variants| - i
  {
    if i == |a.variants| then (if leq then Some(Less) else cmp)
    else
      VariantsSizeElem(a.variants, i);
      var c := TypeCmp(a.variants[i].ty, b);
      if c == Some(Greater) && cmp != Some(Less) then EnumVariants(a, b, i + 1, Some(Greater), false)
      else if c == Some(Equal) && (cmp.None? || cmp == Some(Equal)) then EnumVariants(a, b, i + 1, Some(Equal), leq)
      else if c.None? then EnumVariants(a, b, i + 1, cmp, false)
      else EnumVariants(a, b, i + 1, cmp, leq)
  }

  /** `Any` is greater than every other type. */
  lemma AnyIsTop<R>(t: Type<R>)
    ensures TypeCmp(Any, t) == (if t.Any? then Some(Equal) else Some(Greater))
    ensures TypeCmp(t, Any) == (if t.Any? then Some(Equal) else Some(Less))
  {
  }

  /** An enum is not comparable with itself once two of its variants are
    * incomparable: every pair of variants is compared. */
  lemma EnumSelfIncomparable()
    ensures TypeCmp<bool>(EnumOf([EnumVariant("a", LiteralOf(UnitType)), EnumVariant("b", LiteralOf(BytesLit))]),
                          EnumOf([EnumVariant("a", LiteralOf(UnitType)), EnumVariant("b", LiteralOf(BytesLit))])).None?
  {
    var e: Type<bool> := EnumOf([EnumVariant("a", LiteralOf(UnitType)), EnumVariant("b", LiteralOf(BytesLit))]);
    assert EnumPairs(e, e, 0, 1, Equal).None?;
  }

  // Membership

  /** Whether a type holds a value: `Any` holds everything, an enum holds
    * what one of its variants holds, and otherwise the kinds must agree. */
  predicate TypeContains<R(==)>(t: Type<R>, v: TreeValue<R>)
    decreases Size(t), 2
  {
    match (t, v)
    case (Any, _) => true
    case (ResourceOf(ty), ResourceValue(r)) => ResourceContains(ty, r)
    case (LiteralOf(ty), LiteralValue(l)) => LiteralContains(ty, l)
    case (ListOf(_, _), ListValue(items)) => |items| >= MinLen(t) && ListItemsFrom(t, items, 0)
    case (StructOf(_), MapValue(entries)) => StructContainsAsWritten(t, entries)
    case (EnumOf(_), _) => EnumContains(t, v, 0)
    case _ => false
  }

  /** Whether the items of a list from index `i` on each lie in the item
    * type at their index. */
  predicate ListItemsFrom<R(==)>(t: Type<R>, items: seq<TreeValue<R>>, i: nat)
    requires t.ListOf? && i <= |items|
    decreases Size(t), 1, |items| - i
  {
    if i == |items| then true
    else if i < |t.prefix| then
      TypesSizeElem(t.prefix, i);
      TypeContains(t.prefix[i], items[i]) && ListItemsFrom(t, items, i + 1)
    else
      match t.rest
      case None => false
      case Some(ty) => TypeContains(ty, items[i]) && ListItemsFrom(t, items, i + 1)
  }

  /** A list type holds a list exactly when the list is at least as long as
    * the prefix and every item lies in the item type at its index, which
    * must exist. */
  lemma {:induction false} ListContainsMeaning<R>(t: Type<R>, items: seq<TreeValue<R>>)
    requires t.ListOf?
    ensures TypeContains(t, ListValue(items)) <==>
      (|items| >= MinLen(t)
       && forall i :: 0 <= i < |items| ==> ItemType(t, i).Some? && TypeContains(ItemType(t, i).value, items[i]))
  {
    ListItemsFromMeaning(t, items, 0);
  }

  lemma {:induction false} ListItemsFromMeaning<R>(t: Type<R>, items: seq<TreeValue<R>>, i: nat)
    requires t.ListOf? && i <= |items|
    ensures ListItemsFrom(t, items, i) <==>
      forall k :: i <= k < |items| ==> ItemType(t, k).Some? && TypeContains(ItemType(t, k).value, items[k])
    decreases |items| - i
  {
    if i < |items| {
      ListItemsFromMeaning(t, items, i + 1);
    }
  }

  /** Whether one of the variants of an enum from index `i` on holds a
    * value. */
  predicate EnumContains<R(==)>(t: Type<R>, v: TreeValue<R>, i: nat)
    requires t.EnumOf? && i <= |t.variants|
    decreases Size(t), 1, |t.variants| - i
  {
    if i == |t.variants| then false
    else
      VariantsSizeElem(t.variants, i);
      TypeContains(t.variants[i].ty, v) || EnumContains(t, v, i + 1)
  }

  /** An enum holds exactly the values one of its variants holds. */
  lemma {:induction false} EnumContainsMeaning<R>(t: Type<R>, v: TreeValue<R>, i: nat)
    requires t.EnumOf? && i <= |t.variants|
    ensures EnumContains(t, v, i) <==> exists k :: i <= k < |t.variants| && TypeContains(t.variants[k].ty, v)
    decreases |t.variants| - i
  {
    if i < |t.variants| {
      EnumContainsMeaning(t, v, i + 1);
    }
  }

  /** The index of the first candidate field whose key type holds `key`. */
  function FirstKeyHolder<R(==)>(t: Type<R>, key: TreeValue<R>, cands: seq<FieldEntry<R>>, j: nat): (r: Option<nat>)
    requires t.StructOf? && j <= |cands|
    requires forall k :: 0 <= k < |cands| ==> Size(cands[k].key) < Size(t)
    ensures r.Some? ==> j <= r.value < |cands| && TypeContains(cands[r.value].key, key)
    ensures r.Some? ==> forall k :: j <= k < r.value ==> !TypeContains(cands[k].key, key)
    ensures r.None? ==> forall k :: j <= k < |cands| ==> !TypeContains(cands[k].key, key)
    decreases Size(t), 0, |cands| - j
  {
    if j == |cands| then None
    else if TypeContains(cands[j].key, key) then Some(j)
    else FirstKeyHolder(t, key, cands, j + 1)
  }

  /** The fields of a struct type are all smaller than it. */
  lemma FieldsSmaller<R>(t: Type<R>)
    requires t.StructOf?
    ensures forall k :: 0 <= k < |t.fields| ==> Size(t.fields[k].key) < Size(t) && Size(t.fields[k].field.ty) < Size(t)
  {
    FieldsSizeAll(t.fields);
  }

  /** The sequence with its element at index `k` removed. */
  function Without<T>(s: seq<T>, k: nat): (r: seq<T>)
    requires k < |s|
    ensures |r| == |s| - 1
    ensures forall i :: 0 <= i < k ==> r[i] == s[i]
    ensures forall i :: k <= i < |r| ==> r[i] == s[i + 1]
  {
    s[..k] + s[k + 1..]
  }

  /** Struct membership as written, from entry `j` on: each key takes the
    * first remaining field whose key type holds it, or else must be held by
    * the key type of some field; the fields left over must be optional.  The
    * entry values are never looked at. */
  predicate StructContainsAsWrittenFrom<R(==)>(t: Type<R>, entries: seq<(TreeValue<R>, TreeValue<R>)>, j: nat, remaining: seq<FieldEntry<R>>)
    requires t.StructOf? && j <= |entries|
    requires forall k :: 0 <= k < |remaining| ==> Size(remaining[k].key) < Size(t)
    decreases Size(t), 1, |entries| - j
  {
    if j == |entries| then forall k :: 0 <= k < |remaining| ==> !remaining[k].field.required
    else
      FieldsSmaller(t);
      match FirstKeyHolder(t, entries[j].0, remaining, 0)
      case Some(k) => StructContainsAsWrittenFrom(t, entries, j + 1, Without(remaining, k))
      case None =>
        FirstKeyHolder(t, entries[j].0, t.fields, 0).Some?
        && StructContainsAsWrittenFrom(t, entries, j + 1, remaining)
  }

  predicate StructContainsAsWritten<R(==)>(t: Type<R>, entries: seq<(TreeValue<R>, TreeValue<R>)>)
    requires t.StructOf?
    decreases Size(t), 1
  {
    FieldsSmaller(t);
    StructContainsAsWrittenFrom(t, entries, 0, t.fields)
  }

  /** As written, a struct whose one field is a required unit accepts that
    * field holding a boolean. */
  lemma StructValueIgnored()
    ensures StructContainsAsWritten<bool>(StructOf([FieldEntry(LiteralOf(TextLit(TextType(AllText, 0))), Field(LiteralOf(UnitType), true))]),
                                          [(LiteralValue(TextString("a")), LiteralValue(Boolean(true)))])
    ensures !TypeContains<bool>(LiteralOf(UnitType), LiteralValue(Boolean(true)))
  {
    var t: Type<bool> := StructOf([FieldEntry(LiteralOf(TextLit(TextType(AllText, 0))), Field(LiteralOf(UnitType), true))]);
    var key: TreeValue<bool> := LiteralValue(TextString("a"));
    assert FirstKeyHolder(t, key, t.fields, 0) == Some(0);
    assert Without(t.fields, 0) == [];
  }

  /** Struct membership from entry `j` on: as written, except that the value
    * of each entry must lie in the type of the field its key takes. */
  predicate StructContainsFrom<R(==)>(t: Type<R>, entries: seq<(TreeValue<R>, TreeValue<R>)>, j: nat, remaining: seq<FieldEntry<R>>)
    requires t.StructOf? && j <= |entries|
    requires forall k :: 0 <= k < |remaining| ==> Size(remaining[k].key) < Size(t) && Size(remaining[k].field.ty) < Size(t)
    decreases Size(t), 1, |entries| - j
  {
    if j == |entries| then forall k :: 0 <= k < |remaining| ==> !remaining[k].field.required
    else
      FieldsSmaller(t);
      match FirstKeyHolder(t, entries[j].0, remaining, 0)
      case Some(k) =>
        TypeContains(remaining[k].field.ty, entries[j].1)
        && StructContainsFrom(t, entries, j + 1, Without(remaining, k))
      case None =>
        match FirstKeyHolder(t, entries[j].0, t.fields, 0)
        case Some(k) =>
          TypeContains(t.fields[k].field.ty, entries[j].1)
          && StructContainsFrom(t, entries, j + 1, remaining)
        case None => false
  }

  predicate StructContains<R(==)>(t: Type<R>, entries: seq<(TreeValue<R>, TreeValue<R>)>)
    requires t.StructOf?
    decreases Size(t), 1
  {
    FieldsSmaller(t);
    StructContainsFrom(t, entries, 0, t.fields)
  }

  /** Every entry of a map a struct type holds is held by some field: its key
    * by the field's key type and its value by the field's type. */
  lemma {:induction false} StructContainsFromSound<R>(t: Type<R>, entries: seq<(TreeValue<R>, TreeValue<R>)>, j: nat, remaining: seq<FieldEntry<R>>)
    requires t.StructOf? && j <= |entries|
    requires forall k :: 0 <= k < |remaining| ==> Size(remaining[k].key) < Size(t) && Size(remaining[k].field.ty) < Size(t)
    requires forall k :: 0 <= k < |remaining| ==> remaining[k] in t.fields
    requires StructContainsFrom(t, entries, j, remaining)
    ensures forall e :: j <= e < |entries| ==> EntryHeld(t, entries[e])
    decreases |entries| - j
  {
    if j < |entries| {
      FieldsSmaller(t);
      match FirstKeyHolder(t, entries[j].0, remaining, 0)
      case Some(k) =>
        var rest := Without(remaining, k);
        WithoutWithin(t, remaining, k);
        StructContainsFromSound(t, entries, j + 1, rest);
        HeldBy(t, entries[j], remaining[k]);
      case None =>
        var k := FirstKeyHolder(t, entries[j].0, t.fields, 0).value;
        StructContainsFromSound(t, entries, j + 1, remaining);
        HeldBy(t, entries[j], t.fields[k]);
    }
  }

  /** Some field of `t` holds the entry: its key by the field's key type and
    * its value by the field's type. */
  ghost predicate EntryHeld<R>(t: Type<R>, entry: (TreeValue<R>, TreeValue<R>))
    requires t.StructOf?
  {
    exists f :: f in t.fields && TypeContains(f.key, entry.0) && TypeContains(f.field.ty, entry.1)
  }

  lemma HeldBy<R>(t: Type<R>, entry: (TreeValue<R>, TreeValue<R>), f: FieldEntry<R>)
    requires t.StructOf? && f in t.fields && TypeContains(f.key, entry.0) && TypeContains(f.field.ty, entry.1)
    ensures EntryHeld(t, entry)
  {
  }

  lemma StructContainsSound<R>(t: Type<R>, entries: seq<(TreeValue<R>, TreeValue<R>)>)
    requires t.StructOf? && StructContains(t, entries)
    ensures forall e :: 0 <= e < |entries| ==>
      exists f :: f in t.fields && TypeContains(f.key, entries[e].0) && TypeContains(f.field.ty, entries[e].1)
  {
    FieldsSmaller(t);
    StructContainsFromSound(t, entries, 0, t.fields);
  }

  /** As written, every key of a map a struct type holds is held by the key
    * type of some field. */
  lemma {:induction false} StructContainsAsWrittenFromKeys<R>(t: Type<R>, entries: seq<(TreeValue<R>, TreeValue<R>)>, j: nat, remaining: seq<FieldEntry<R>>)
    requires t.StructOf? && j <= |entries|
    requires forall k :: 0 <= k < |remaining| ==> Size(remaining[k].key) < Size(t)
    requires forall k :: 0 <= k < |remaining| ==> remaining[k] in t.fields
    requires StructContainsAsWrittenFrom(t, entries, j, remaining)
    ensures forall e :: j <= e < |entries| ==> exists f :: f in t.fields && TypeContains(f.key, entries[e].0)
    decreases |entries| - j
  {
    if j < |entries| {
      FieldsSmaller(t);
      match FirstKeyHolder(t, entries[j].0, remaining, 0)
      case Some(k) =>
        var rest := Without(remaining, k);
        WithoutWithin(t, remaining, k);
        StructContainsAsWrittenFromKeys(t, entries, j + 1, rest);
        assert remaining[k] in t.fields;
      case None =>
        var k := FirstKeyHolder(t, entries[j].0, t.fields, 0).value;
        StructContainsAsWrittenFromKeys(t, entries, j + 1, remaining);
        assert t.fields[k] in t.fields;
    }
  }

  /** Removing a field from fields of `t` leaves fields of `t`. */
  lemma WithoutWithin<R>(t: Type<R>, remaining: seq<FieldEntry<R>>, k: nat)
    requires t.StructOf? && k < |remaining|
    requires forall i :: 0 <= i < |remaining| ==> remaining[i] in t.fields
    ensures forall i :: 0 <= i < |Without(remaining, k)| ==> Without(remaining, k)[i] in t.fields
  {
    var rest := Without(remaining, k);
    forall i | 0 <= i < |rest| ensures rest[i] in t.fields {
      if i < k { assert rest[i] == remaining[i]; } else { assert rest[i] == remaining[i + 1]; }
    }
  }

  lemma StructContainsAsWrittenKeys<R>(t: Type<R>, entries: seq<(TreeValue<R>, TreeValue<R>)>)
    requires t.StructOf? && StructContainsAsWritten(t, entries)
    ensures forall e :: 0 <= e < |entries| ==> exists f :: f in t.fields && TypeContains(f.key, entries[e].0)
  {
    FieldsSmaller(t);
    StructContainsAsWrittenFromKeys(t, entries, 0, t.fields);
  }

  /** Checking the entry values only rejects more maps: whatever the
    * intended membership accepts, the written one accepts too. */
  lemma {:induction false} StructContainsFromWritten<R>(t: Type<R>, entries: seq<(TreeValue<R>, TreeValue<R>)>, j: nat, remaining: seq<FieldEntry<R>>)
    requires t.StructOf? && j <= |entries|
    requires forall k :: 0 <= k < |remaining| ==> Size(remaining[k].key) < Size(t) && Size(remaining[k].field.ty) < Size(t)
    requires StructContainsFrom(t, entries, j, remaining)
    ensures StructContainsAsWrittenFrom(t, entries, j, remaining)
    decreases |entries| - j
  {
    if j < |entries| {
      FieldsSmaller(t);
      match FirstKeyHolder(t, entries[j].0, remaining, 0)
      case Some(k) =>
        StructContainsFromWritten(t, entries, j + 1, Without(remaining, k));
      case None =>
        StructContainsFromWritten(t, entries, j + 1, remaining);
    }
  }

  lemma StructContainsWritten<R>(t: Type<R>, entries: seq<(TreeValue<R>, TreeValue<R>)>)
    requires t.StructOf? && StructContains(t, entries)
    ensures TypeContains(t, MapValue(entries))
  {
    FieldsSmaller(t);
    StructContainsFromWritten(t, entries, 0, t.fields);
  }

  /** A field is a subfield of another exactly when, of two fields with
    * comparable types, every absence the first allows the second allows
    * too, and the first's type is below the second's. */
  lemma SubfieldMeaning<R>(a: Type<R>, b: Type<R>, f: Field<R>, g: Field<R>)
    requires a.StructOf? && b.StructOf? && Size(f.ty) < Size(a) && Size(g.ty) < Size(b)
    ensures IsSubfield(a, b, f, g) <==>
      (!f.required ==> !g.required) && TypeCmp(f.ty, g.ty) in {Some(Less), Some(Equal)}
  {
  }
}
